/**
 * The matcher combinators of `Expression` (pybd/expression.py, and the same code in
 * expression.py): an event is a (scancode, keystate) pair, and a matcher maps an
 * event buffer to a tri-state verdict, the unconsumed remainder of the buffer and
 * the list of captured event runs.
 *
 * The closures pybd's Python code builds are represented by the `Matcher` datatype; `Run`
 * is their meaning as functions, and `Evaluate`, `MatchSequence` and `MatchWild`
 * are the loops of the Python code, proved to compute `Run`.
 */
module Matchers {
  import opened Wrappers

  /** evdev key states: up = 0, down = 1 (a press), hold = 2 (auto-repeat). */
  datatype KeyState = Up | Down | Hold

  datatype Event = Event(scancode: int, keystate: KeyState)

  /** `state_accept` = 0, `state_reject` = 1, `state_partial` = 2. */
  datatype MatchState = Accept | Reject | Partial

  /** What every matcher returns: `(state, remainder, captures)`. */
  datatype MatchResult = MatchResult(state: MatchState, rest: seq<Event>, captures: seq<seq<Event>>)

  /** The closures built by `button(scancode, keystate)`, `wild(end_scancode)` and `sequence(*literals)`.
      A code is `None` when the key name it came from did not resolve. */
  datatype Matcher =
    | Button(code: Option<int>, target: KeyState)
    | Wild(terminator: Option<int>)
    | Sequence(children: seq<Matcher>)

  ghost predicate IsSuffix(s: seq<Event>, t: seq<Event>) {
    |s| <= |t| && s == t[|t| - |s|..]
  }

  /** The invariant every matcher keeps: the remainder is a suffix of the input,
      and a Partial verdict comes with an empty remainder. */
  ghost predicate WellFormed(r: MatchResult, keys: seq<Event>) {
    IsSuffix(r.rest, keys) && (r.state == Partial ==> r.rest == [])
  }

  /** The Python code compares `scancode` with a code that may be `None`; `None` equals no scancode. */
  predicate HasCode(e: Event, code: Option<int>) {
    code == Some(e.scancode)
  }

  lemma SuffixOfTail(s: seq<Event>, keys: seq<Event>)
    requires keys != [] && IsSuffix(s, keys[1..])
    ensures IsSuffix(s, keys)
  {
    assert keys[1..][|keys| - 1 - |s|..] == keys[|keys| - |s|..];
  }

  lemma SuffixTrans(s: seq<Event>, t: seq<Event>, u: seq<Event>)
    requires IsSuffix(s, t) && IsSuffix(t, u)
    ensures IsSuffix(s, u)
  {
    assert t[|t| - |s|..] == u[|u| - |s|..];
  }

  // ---------------------------------------------------------------- button

  /** `button(scancode, keystate)`: a press target skips every leading event that is not
      a press and rejects a press of another code; any other target rejects an event of
      another keystate and skips events of its keystate with another code. */
  function RunButton(code: Option<int>, target: KeyState, keys: seq<Event>): MatchResult
    decreases |keys|
  {
    if keys == [] then MatchResult(Partial, keys, [])
    else if keys[0].keystate != target then
      if target == Down then SkipFirst(code, target, keys) else MatchResult(Reject, keys, [])
    else if !HasCode(keys[0], code) then
      if target == Down then MatchResult(Reject, keys, []) else SkipFirst(code, target, keys)
    else
      MatchResult(Accept, keys[1..], [])
  }

  /** `_ignore`: drop the first event and match the rest. */
  function SkipFirst(code: Option<int>, target: KeyState, keys: seq<Event>): MatchResult
    requires keys != []
    decreases |keys|, 0
  {
    RunButton(code, target, keys[1..])
  }

  /** A button captures nothing, and what it leaves is a suffix of the buffer (empty on Partial). */
  lemma {:induction false} RunButtonWellFormed(code: Option<int>, target: KeyState, keys: seq<Event>)
    ensures WellFormed(RunButton(code, target, keys), keys)
    ensures RunButton(code, target, keys).captures == []
    decreases |keys|
  {
    if keys != [] {
      var skips := if keys[0].keystate != target then target == Down else target != Down && !HasCode(keys[0], code);
      if skips {
        var r := RunButton(code, target, keys[1..]);
        assert RunButton(code, target, keys) == r;
        RunButtonWellFormed(code, target, keys[1..]);
        SuffixOfTail(r.rest, keys);
      }
    }
  }

  /** Index of the first press in `keys`. */
  function FirstPress(keys: seq<Event>): (r: Option<nat>)
    ensures r.Some? ==> r.value < |keys| && keys[r.value].keystate == Down
    ensures r.Some? ==> forall j :: 0 <= j < r.value ==> keys[j].keystate != Down
    ensures r.None? ==> forall j :: 0 <= j < |keys| ==> keys[j].keystate != Down
  {
    if keys == [] then None
    else if keys[0].keystate == Down then Some(0)
    else match FirstPress(keys[1..])
      case None => None
      case Some(i) => Some(i + 1)
  }

  /** For a target other than a press, the first event that ends the skipping:
      one of another keystate, or one that carries the expected code. */
  function FirstStop(code: Option<int>, target: KeyState, keys: seq<Event>): (r: Option<nat>)
    ensures r.Some? ==> r.value < |keys| && (keys[r.value].keystate != target || HasCode(keys[r.value], code))
    ensures r.Some? ==> forall j :: 0 <= j < r.value ==> keys[j].keystate == target && !HasCode(keys[j], code)
    ensures r.None? ==> forall j :: 0 <= j < |keys| ==> keys[j].keystate == target && !HasCode(keys[j], code)
  {
    if keys == [] then None
    else if keys[0].keystate != target || HasCode(keys[0], code) then Some(0)
    else match FirstStop(code, target, keys[1..])
      case None => None
      case Some(i) => Some(i + 1)
  }

  /** A press-target button decides on the first press: Accept (consuming exactly it) when
      it carries the code, Reject with the buffer from that press on otherwise, and
      Partial with nothing left when there is no press at all. */
  lemma {:induction false} PressButtonDecidesOnFirstPress(code: Option<int>, keys: seq<Event>)
    ensures RunButton(code, Down, keys) ==
      match FirstPress(keys)
      case None => MatchResult(Partial, [], [])
      case Some(i) =>
        if HasCode(keys[i], code) then MatchResult(Accept, keys[i + 1..], [])
        else MatchResult(Reject, keys[i..], [])
  {
    if keys != [] && keys[0].keystate != Down {
      assert RunButton(code, Down, keys) == RunButton(code, Down, keys[1..]) by {
        assert RunButton(code, Down, keys) == SkipFirst(code, Down, keys);
      }
      PressButtonDecidesOnFirstPress(code, keys[1..]);
      match FirstPress(keys[1..])
      case None =>
      case Some(i) =>
        assert keys[1..][i + 1..] == keys[i + 2..];
        assert keys[1..][i..] == keys[i + 1..];
    }
  }

  /** A button with any other target skips only same-keystate events of other codes:
      the first other event decides, Reject when its keystate differs (the buffer from
      it on is the remainder), Accept consuming it otherwise. */
  lemma {:induction false} OtherButtonDecidesOnFirstStop(code: Option<int>, target: KeyState, keys: seq<Event>)
    requires target != Down
    ensures RunButton(code, target, keys) ==
      match FirstStop(code, target, keys)
      case None => MatchResult(Partial, [], [])
      case Some(i) =>
        if keys[i].keystate != target then MatchResult(Reject, keys[i..], [])
        else MatchResult(Accept, keys[i + 1..], [])
  {
    if keys != [] && keys[0].keystate == target && !HasCode(keys[0], code) {
      assert RunButton(code, target, keys) == RunButton(code, target, keys[1..]) by {
        assert RunButton(code, target, keys) == SkipFirst(code, target, keys);
      }
      OtherButtonDecidesOnFirstStop(code, target, keys[1..]);
      match FirstStop(code, target, keys[1..])
      case None =>
      case Some(i) =>
        assert FirstStop(code, target, keys) == Some(i + 1);
        assert keys[1..][i] == keys[i + 1];
        assert keys[1..][i + 1..] == keys[i + 2..];
        assert keys[1..][i..] == keys[i + 1..];
    }
  }

  // ---------------------------------------------------------------- wild

  predicate IsTerminator(terminator: Option<int>, e: Event) {
    HasCode(e, terminator) && e.keystate == Down
  }

  /** Index of the first press of the terminator code. */
  function FirstTerminator(terminator: Option<int>, keys: seq<Event>): (r: Option<nat>)
    ensures r.Some? ==> r.value < |keys| && IsTerminator(terminator, keys[r.value])
    ensures r.Some? ==> forall j :: 0 <= j < r.value ==> !IsTerminator(terminator, keys[j])
    ensures r.None? ==> forall j :: 0 <= j < |keys| ==> !IsTerminator(terminator, keys[j])
  {
    if keys == [] then None
    else if IsTerminator(terminator, keys[0]) then Some(0)
    else match FirstTerminator(terminator, keys[1..])
      case None => None
      case Some(i) => Some(i + 1)
  }

  /** The first terminator press is the one that no earlier terminator press precedes. */
  lemma FirstTerminatorAt(terminator: Option<int>, keys: seq<Event>, n: nat)
    requires n <= |keys|
    requires forall j :: 0 <= j < n ==> !IsTerminator(terminator, keys[j])
    ensures n < |keys| && IsTerminator(terminator, keys[n]) ==> FirstTerminator(terminator, keys) == Some(n)
    ensures n == |keys| ==> FirstTerminator(terminator, keys) == None
  {
  }

  /** The presses of `keys`, in order. */
  function Presses(keys: seq<Event>): (r: seq<Event>)
    ensures |r| <= |keys|
    ensures forall e :: e in r ==> e in keys && e.keystate == Down
  {
    if keys == [] then []
    else if keys[0].keystate == Down then [keys[0]] + Presses(keys[1..])
    else Presses(keys[1..])
  }

  lemma {:induction false} PressesAppend(a: seq<Event>, b: seq<Event>)
    ensures Presses(a + b) == Presses(a) + Presses(b)
  {
    if a != [] {
      assert (a + b)[1..] == a[1..] + b;
      PressesAppend(a[1..], b);
    } else {
      assert a + b == b;
    }
  }

  /** One more event adds itself to the presses when it is a press. */
  lemma PressesStep(keys: seq<Event>, n: nat)
    requires n < |keys|
    ensures Presses(keys[..n + 1]) == Presses(keys[..n]) + if keys[n].keystate == Down then [keys[n]] else []
  {
    PressesAppend(keys[..n], [keys[n]]);
    assert keys[..n + 1] == keys[..n] + [keys[n]];
  }

  /** `wild(end_scancode)`: Accept at the first press of the terminator, with the events
      after it as remainder and one capture run holding the earlier presses; Partial with
      an empty remainder when no terminator press has arrived. */
  function RunWild(terminator: Option<int>, keys: seq<Event>): MatchResult {
    match FirstTerminator(terminator, keys)
    case None => MatchResult(Partial, [], [])
    case Some(n) => MatchResult(Accept, keys[n + 1..], [Presses(keys[..n])])
  }

  /** The wildcard never rejects; it leaves the events after the terminator press, or
      nothing when it says Partial. */
  lemma RunWildWellFormed(terminator: Option<int>, keys: seq<Event>)
    ensures WellFormed(RunWild(terminator, keys), keys)
    ensures RunWild(terminator, keys).state != Reject
  {
  }

  /** The wildcard's single capture run holds presses only, and never the terminator. */
  lemma WildCaptureExcludesTerminator(terminator: Option<int>, keys: seq<Event>)
    ensures RunWild(terminator, keys).state == Accept ==>
      var run := RunWild(terminator, keys).captures;
      |run| == 1 &&
      forall e :: e in run[0] ==> e.keystate == Down && !HasCode(e, terminator)
  {
    match FirstTerminator(terminator, keys)
    case None =>
    case Some(n) =>
      forall e | e in Presses(keys[..n]) ensures e.keystate == Down && !HasCode(e, terminator) {
        var j :| 0 <= j < n && keys[j] == e;
      }
  }

  /** The loop of `wild`, appending presses to `extracted` until the terminator. */
  method MatchWild(terminator: Option<int>, keys: seq<Event>) returns (r: MatchResult)
    ensures r == RunWild(terminator, keys)
  {
    var extracted: seq<Event> := [];
    var n := 0;
    while n < |keys|
      invariant 0 <= n <= |keys|
      invariant extracted == Presses(keys[..n])
      invariant forall j :: 0 <= j < n ==> !IsTerminator(terminator, keys[j])
    {
      var key := keys[n];
      if HasCode(key, terminator) && key.keystate == Down {
        FirstTerminatorAt(terminator, keys, n);
        return MatchResult(Accept, keys[n + 1..], [extracted]);
      }
      PressesStep(keys, n);
      if key.keystate == Down {
        extracted := extracted + [key];
      }
      n := n + 1;
    }
    FirstTerminatorAt(terminator, keys, n);
    return MatchResult(Partial, [], []);
  }

  // ---------------------------------------------------------------- sequence and Run

  /** The meaning of a compiled matcher. */
  function Run(m: Matcher, keys: seq<Event>): MatchResult
    decreases m
  {
    match m
    case Button(code, target) => RunButton(code, target, keys)
    case Wild(terminator) => RunWild(terminator, keys)
    case Sequence(children) => RunSequence(children, keys)
  }

  /** `sequence(*literals)`: each child gets the previous child's remainder; the first
      Reject ends the sequence with that child's remainder and the captures gathered
      before it; otherwise the last child's state and remainder are the sequence's. */
  function RunSequence(children: seq<Matcher>, keys: seq<Event>): MatchResult
    decreases children
  {
    if children == [] then MatchResult(Accept, keys, [])
    else
      var first := Run(children[0], keys);
      if first.state == Reject then MatchResult(Reject, first.rest, [])
      else if |children| == 1 then first
      else
        var others := RunSequence(children[1..], first.rest);
        MatchResult(others.state, others.rest, first.captures + others.captures)
  }

  /** Every matcher keeps `WellFormed`: what it leaves is a suffix of the buffer, and it
      leaves nothing when it says Partial. */
  lemma {:induction false} RunWellFormed(m: Matcher, keys: seq<Event>)
    ensures WellFormed(Run(m, keys), keys)
    decreases m
  {
    match m
    case Button(code, target) => RunButtonWellFormed(code, target, keys);
    case Wild(terminator) => RunWildWellFormed(terminator, keys);
    case Sequence(children) => RunSequenceWellFormed(children, keys);
  }

  lemma {:induction false} RunSequenceWellFormed(children: seq<Matcher>, keys: seq<Event>)
    ensures WellFormed(RunSequence(children, keys), keys)
    decreases children
  {
    if children != [] {
      RunWellFormed(children[0], keys);
      var first := Run(children[0], keys);
      if first.state != Reject && |children| > 1 {
        RunSequenceWellFormed(children[1..], first.rest);
        SuffixTrans(RunSequence(children[1..], first.rest).rest, first.rest, keys);
      }
    }
  }

  /** A sequence of two or more children runs its first child, then the others on its
      remainder unless it rejected. */
  lemma RunSequenceCons(children: seq<Matcher>, keys: seq<Event>)
    requires |children| > 1
    ensures var first := Run(children[0], keys);
      RunSequence(children, keys) ==
        if first.state == Reject then MatchResult(Reject, first.rest, [])
        else
          var others := RunSequence(children[1..], first.rest);
          MatchResult(others.state, others.rest, first.captures + others.captures)
  {
  }

  /** `RunSequenceAppend` when the first list has one child. */
  lemma RunSequenceAppendOne(m: Matcher, b: seq<Matcher>, keys: seq<Event>)
    requires b != []
    ensures RunSequence([m] + b, keys) ==
      var ra := RunSequence([m], keys);
      if ra.state == Reject then ra
      else
        var rb := RunSequence(b, ra.rest);
        MatchResult(rb.state, rb.rest, ra.captures + rb.captures)
  {
    RunSequenceCons([m] + b, keys);
    assert ([m] + b)[0] == m && ([m] + b)[1..] == b;
  }

  /** `RunSequenceAppend` when the first list has more than one child. */
  lemma {:induction false} RunSequenceAppendMore(a: seq<Matcher>, b: seq<Matcher>, keys: seq<Event>)
    requires |a| > 1 && b != []
    ensures RunSequence(a + b, keys) ==
      var ra := RunSequence(a, keys);
      if ra.state == Reject then ra
      else
        var rb := RunSequence(b, ra.rest);
        MatchResult(rb.state, rb.rest, ra.captures + rb.captures)
    decreases |a|, 0
  {
    var ab := a + b;
    var first := Run(a[0], keys);
    assert RunSequence(ab, keys) ==
      if first.state == Reject then MatchResult(Reject, first.rest, [])
      else
        var others := RunSequence(a[1..] + b, first.rest);
        MatchResult(others.state, others.rest, first.captures + others.captures)
    by {
      assert ab[0] == a[0] && ab[1..] == a[1..] + b;
      RunSequenceCons(ab, keys);
    }
    RunSequenceCons(a, keys);
    if first.state != Reject {
      var rt := RunSequence(a[1..], first.rest);
      RunSequenceAppend(a[1..], b, first.rest);
      if rt.state != Reject {
        var rb := RunSequence(b, rt.rest);
        assert first.captures + (rt.captures + rb.captures) == (first.captures + rt.captures) + rb.captures;
      }
    }
  }

  /** Running the concatenation of two non-empty child lists is running the first list,
      stopping there on Reject, and otherwise running the second list on its remainder. */
  lemma {:induction false} RunSequenceAppend(a: seq<Matcher>, b: seq<Matcher>, keys: seq<Event>)
    requires a != [] && b != []
    decreases |a|, 1
    ensures RunSequence(a + b, keys) ==
      var ra := RunSequence(a, keys);
      if ra.state == Reject then ra
      else
        var rb := RunSequence(b, ra.rest);
        MatchResult(rb.state, rb.rest, ra.captures + rb.captures)
  {
    if |a| == 1 {
      RunSequenceAppendOne(a[0], b, keys);
      assert [a[0]] == a;
    } else {
      RunSequenceAppendMore(a, b, keys);
    }
  }

  /** A sequence of one child behaves as the child, except that a Reject drops the
      child's captures. */
  lemma SingletonSequence(m: Matcher, keys: seq<Event>)
    ensures var r := Run(m, keys);
      Run(Sequence([m]), keys) == if r.state == Reject then MatchResult(Reject, r.rest, []) else r
  {
  }

  /** The sequence loop, in the order it runs: child `i` has been fed the remainder of
      child `i - 1`, and `Pending` is what the children from `i` on will still do. */
  function Pending(state: MatchState, keys: seq<Event>, reply: seq<seq<Event>>, children: seq<Matcher>): MatchResult {
    if children == [] then MatchResult(state, keys, reply)
    else
      var r := RunSequence(children, keys);
      MatchResult(r.state, r.rest, reply + r.captures)
  }

  /** The loop of `sequence`: thread the remainder, stop on Reject before adding that
      child's captures, keep going on Partial. */
  method MatchSequence(children: seq<Matcher>, keys: seq<Event>) returns (r: MatchResult)
    ensures r == RunSequence(children, keys)
    decreases children, 0
  {
    var state := Accept;
    var rest := keys;
    var reply: seq<seq<Event>> := [];
    var i := 0;
    assert [] + RunSequence(children, keys).captures == RunSequence(children, keys).captures;
    while i < |children|
      invariant 0 <= i <= |children|
      invariant Pending(state, rest, reply, children[i..]) == RunSequence(children, keys)
    {
      assert children[i..][1..] == children[i + 1..];
      var child := Evaluate(children[i], rest);
      state, rest := child.state, child.rest;
      if state == Reject {
        break;
      }
      if i + 1 < |children| {
        var others := RunSequence(children[i + 1..], rest);
        assert reply + child.captures + others.captures == reply + (child.captures + others.captures);
      }
      reply := reply + child.captures;
      i := i + 1;
    }
    return MatchResult(state, rest, reply);
  }

  /** Calling a compiled matcher on a buffer. */
  method Evaluate(m: Matcher, keys: seq<Event>) returns (r: MatchResult)
    ensures r == Run(m, keys)
    decreases m
  {
    match m
    case Button(code, target) => r := RunButton(code, target, keys);
    case Wild(terminator) => r := MatchWild(terminator, keys);
    case Sequence(children) => r := MatchSequence(children, keys);
  }
}
