/**
 * Resolution of the action or condition invoked on a task line, against
 * the imported modules. Each module lists conditions and actions; each
 * action has overloads (signature snippets) tried in declared order.
 */
module Modules {
  import opened Common

  datatype Action = Action(summary: string, overloads: seq<string>)

  const ConditionKind: string := "condition"
  const ActionKind: string := "action"

  datatype ActionResult = ActionResult(moduleName: string, actionKind: string, action: Action, overload: nat)

  /** A module descriptor; either list may be absent. */
  datatype Module = Module(displayName: string, conditions: Option<seq<Action>>, actions: Option<seq<Action>>)

  /**
   * What a generator yields: the values it produced, and whether it then
   * threw instead of finishing (`overloads[0].startsWith` on an action
   * without overloads raises a TypeError).
   */
  datatype Generated<T> = Generated(items: seq<T>, threw: bool)

  /** Running generator `a`, then `b` if `a` finished. */
  function Then<T>(a: Generated<T>, b: Generated<T>): Generated<T>
  {
    if a.threw then a else Generated(a.items + b.items, b.threw)
  }

  /** The external matchers: the signature regex, and the boolean-expression recogniser. */
  datatype Matchers = Matchers(
    signatureMatches: (string, string) -> bool,
    isBooleanExpression: (string, string) -> bool,
    booleanResult: string -> ActionResult)

  datatype Resolution = Resolved(result: ActionResult) | Unresolved | Threw

  // ---------------------------------------------------------------------
  // Candidates.

  /** `filterActions`: the actions whose first overload starts with `prefix`, in order. */
  function FilterActions(actions: seq<Action>, prefix: string): Generated<Action>
    decreases |actions|
  {
    if actions == [] then Generated([], false)
    else if actions[0].overloads == [] then Generated([], true)
    else
      var rest := FilterActions(actions[1..], prefix);
      if StartsWith(actions[0].overloads[0], prefix) then Generated([actions[0]] + rest.items, rest.threw)
      else rest
  }

  /** Filtering a concatenation filters the first part, then (if it did not throw) the second. */
  lemma {:induction false} FilterActionsAppend(a: seq<Action>, b: seq<Action>, prefix: string)
    ensures FilterActions(a + b, prefix) == Then(FilterActions(a, prefix), FilterActions(b, prefix))
    decreases |a|
  {
    if a == [] {
      assert a + b == b;
    } else {
      assert (a + b)[0] == a[0];
      assert (a + b)[1..] == a[1..] + b;
      FilterActionsAppend(a[1..], b, prefix);
    }
  }

  /** Filtering throws exactly when some action has no overload. */
  lemma {:induction false} FilterActionsThrows(actions: seq<Action>, prefix: string)
    ensures FilterActions(actions, prefix).threw <==> exists i :: 0 <= i < |actions| && actions[i].overloads == []
    decreases |actions|
  {
    if actions != [] && actions[0].overloads != [] {
      FilterActionsThrows(actions[1..], prefix);
      if exists i :: 0 <= i < |actions| && actions[i].overloads == [] {
        var i :| 0 <= i < |actions| && actions[i].overloads == [];
        assert actions[1..][i - 1] == actions[i];
      }
      if exists i :: 0 <= i < |actions[1..]| && actions[1..][i].overloads == [] {
        var i :| 0 <= i < |actions[1..]| && actions[1..][i].overloads == [];
        assert actions[i + 1] == actions[1..][i];
      }
    }
  }

  /** `a` is kept because of position `i`: no action up to it lacks overloads, and its first one fits. */
  ghost predicate KeptAt(actions: seq<Action>, prefix: string, a: Action, i: int)
  {
    && 0 <= i < |actions| && actions[i] == a
    && (forall j :: 0 <= j <= i ==> actions[j].overloads != [])
    && StartsWith(actions[i].overloads[0], prefix)
  }

  /** Every kept action is kept because of some position. */
  lemma {:induction false} FilterActionsSound(actions: seq<Action>, prefix: string, a: Action)
    requires a in FilterActions(actions, prefix).items
    ensures exists i :: KeptAt(actions, prefix, a, i)
    decreases |actions|
  {
    var tail := actions[1..];
    if a == actions[0] && StartsWith(actions[0].overloads[0], prefix) {
      assert KeptAt(actions, prefix, a, 0);
    } else {
      FilterActionsSound(tail, prefix, a);
      var i :| KeptAt(tail, prefix, a, i);
      forall j | 0 <= j <= i + 1 ensures actions[j].overloads != [] {
        if j > 0 { assert actions[j] == tail[j - 1]; }
      }
      assert KeptAt(actions, prefix, a, i + 1);
    }
  }

  /** An action that fits at a position before any action without overloads is kept. */
  lemma {:induction false} FilterActionsComplete(actions: seq<Action>, prefix: string, a: Action, i: int)
    requires KeptAt(actions, prefix, a, i)
    ensures a in FilterActions(actions, prefix).items
    decreases |actions|
  {
    if i > 0 {
      var tail := actions[1..];
      forall j | 0 <= j <= i - 1 ensures tail[j].overloads != [] {
        assert tail[j] == actions[j + 1];
      }
      assert KeptAt(tail, prefix, a, i - 1);
      FilterActionsComplete(tail, prefix, a, i - 1);
    }
  }

  /**
   * Exactly the actions, before the first one without overloads, whose
   * first overload starts with the prefix are kept; later overloads play no part.
   */
  lemma FilterActionsMembers(actions: seq<Action>, prefix: string, a: Action)
    ensures a in FilterActions(actions, prefix).items <==>
              exists i :: 0 <= i < |actions| && actions[i] == a
                          && (forall j :: 0 <= j <= i ==> actions[j].overloads != [])
                          && StartsWith(actions[i].overloads[0], prefix)
  {
    if a in FilterActions(actions, prefix).items {
      FilterActionsSound(actions, prefix, a);
      var i :| KeptAt(actions, prefix, a, i);
    }
    if exists i :: 0 <= i < |actions| && actions[i] == a
                   && (forall j :: 0 <= j <= i ==> actions[j].overloads != [])
                   && StartsWith(actions[i].overloads[0], prefix) {
      var i :| 0 <= i < |actions| && actions[i] == a
               && (forall j :: 0 <= j <= i ==> actions[j].overloads != [])
               && StartsWith(actions[i].overloads[0], prefix);
      FilterActionsComplete(actions, prefix, a, i);
    }
  }

  function FilterList(list: Option<seq<Action>>, prefix: string): Generated<Action>
  {
    match list
    case None => Generated([], false)
    case Some(actions) => FilterActions(actions, prefix)
  }

  /** The results `findActions` yields for a filtered list, all with overload 0. */
  function Tag(moduleName: string, kind: string, g: Generated<Action>): (r: Generated<ActionResult>)
    ensures |r.items| == |g.items| && r.threw == g.threw
    ensures forall k :: 0 <= k < |r.items| ==> r.items[k] == ActionResult(moduleName, kind, g.items[k], 0)
  {
    Generated(seq(|g.items|, k requires 0 <= k < |g.items| => ActionResult(moduleName, kind, g.items[k], 0)), g.threw)
  }

  /** One module's candidates: its conditions, then its actions. */
  function ModuleCandidates(m: Module, prefix: string): Generated<ActionResult>
  {
    Then(Tag(m.displayName, ConditionKind, FilterList(m.conditions, prefix)),
         Tag(m.displayName, ActionKind, FilterList(m.actions, prefix)))
  }

  /** `findActions`: the candidates of every module, in module order. */
  function FindActions(modules: seq<Module>, prefix: string): Generated<ActionResult>
    decreases |modules|
  {
    if modules == [] then Generated([], false)
    else Then(ModuleCandidates(modules[0], prefix), FindActions(modules[1..], prefix))
  }

  lemma ThenAssociative<T>(a: Generated<T>, b: Generated<T>, c: Generated<T>)
    ensures Then(Then(a, b), c) == Then(a, Then(b, c))
  {
    if !a.threw && !b.threw {
      assert (a.items + b.items) + c.items == a.items + (b.items + c.items);
    }
  }

  /** The candidates of a list of modules: those of the first part, then those of the second. */
  lemma {:induction false} FindActionsAppend(ms: seq<Module>, ns: seq<Module>, prefix: string)
    ensures FindActions(ms + ns, prefix) == Then(FindActions(ms, prefix), FindActions(ns, prefix))
    decreases |ms|
  {
    if ms == [] {
      assert ms + ns == ns;
      var g := FindActions(ns, prefix);
      assert [] + g.items == g.items;
    } else {
      assert (ms + ns)[0] == ms[0];
      assert (ms + ns)[1..] == ms[1..] + ns;
      FindActionsAppend(ms[1..], ns, prefix);
      ThenAssociative(ModuleCandidates(ms[0], prefix), FindActions(ms[1..], prefix), FindActions(ns, prefix));
    }
  }

  /** `a` is listed by the module under `kind` and passes the prefix filter there. */
  ghost predicate ListedUnder(m: Module, kind: string, a: Action, prefix: string)
  {
    var list := if kind == ConditionKind then m.conditions else m.actions;
    && (kind == ConditionKind || kind == ActionKind)
    && list.Some?
    && a in FilterActions(list.value, prefix).items
  }

  /**
   * Every candidate has overload 0, comes from one of the modules and was
   * listed there, as a condition or as an action, under its kind.
   */
  lemma {:induction false} CandidatesComeFromModules(modules: seq<Module>, prefix: string)
    ensures forall c :: c in FindActions(modules, prefix).items ==>
              && c.overload == 0
              && exists i :: 0 <= i < |modules| && c.moduleName == modules[i].displayName
                             && ListedUnder(modules[i], c.actionKind, c.action, prefix)
    decreases |modules|
  {
    if modules != [] {
      CandidatesComeFromModules(modules[1..], prefix);
      var m := modules[0];
      var conds := Tag(m.displayName, ConditionKind, FilterList(m.conditions, prefix));
      var acts := Tag(m.displayName, ActionKind, FilterList(m.actions, prefix));
      forall c | c in FindActions(modules, prefix).items
        ensures c.overload == 0
        ensures exists i :: 0 <= i < |modules| && c.moduleName == modules[i].displayName
                            && ListedUnder(modules[i], c.actionKind, c.action, prefix)
      {
        if c in conds.items {
          var k :| 0 <= k < |conds.items| && conds.items[k] == c;
          assert ListedUnder(modules[0], c.actionKind, c.action, prefix);
        } else if c in acts.items {
          var k :| 0 <= k < |acts.items| && acts.items[k] == c;
          assert ListedUnder(modules[0], c.actionKind, c.action, prefix);
        } else {
          assert c in FindActions(modules[1..], prefix).items;
          var i :| 0 <= i < |modules[1..]| && c.moduleName == modules[1..][i].displayName
                   && ListedUnder(modules[1..][i], c.actionKind, c.action, prefix);
          assert modules[i + 1] == modules[1..][i];
        }
      }
    }
  }

  /**
   * The candidates of `modules[i]` come after those of every earlier module
   * and before those of every later one; within the module, its conditions
   * come before its actions (`ModuleCandidates`).
   */
  lemma FindActionsSplit(modules: seq<Module>, prefix: string, i: nat)
    requires i < |modules|
    ensures FindActions(modules, prefix) ==
              Then(FindActions(modules[..i], prefix),
                   Then(ModuleCandidates(modules[i], prefix), FindActions(modules[i + 1..], prefix)))
  {
    assert modules == modules[..i] + modules[i..];
    FindActionsAppend(modules[..i], modules[i..], prefix);
    assert modules[i..][0] == modules[i];
    assert modules[i..][1..] == modules[i + 1..];
  }

  /** Whatever follows, the items of `a` open those of `Then(a, b)`. */
  lemma ThenKeepsPrefix<T>(a: Generated<T>, b: Generated<T>, x: T)
    requires x in a.items
    ensures x in Then(a, b).items
  {
    if !a.threw {
      assert Then(a, b).items == a.items + b.items;
    }
  }

  /**
   * Every action that a module's filter keeps is a candidate, with the
   * module's display name, the list's kind and overload 0, unless a list
   * scanned before it threw: the earlier modules, and for the actions also
   * the module's own conditions.
   */
  lemma {:induction false} CandidatesCoverModules(modules: seq<Module>, prefix: string, i: nat, a: Action)
    requires i < |modules|
    ensures !FindActions(modules[..i], prefix).threw
            && modules[i].conditions.Some? && a in FilterActions(modules[i].conditions.value, prefix).items ==>
              ActionResult(modules[i].displayName, ConditionKind, a, 0) in FindActions(modules, prefix).items
    ensures !FindActions(modules[..i], prefix).threw && !FilterList(modules[i].conditions, prefix).threw
            && modules[i].actions.Some? && a in FilterActions(modules[i].actions.value, prefix).items ==>
              ActionResult(modules[i].displayName, ActionKind, a, 0) in FindActions(modules, prefix).items
  {
    var m := modules[i];
    var before := FindActions(modules[..i], prefix);
    var conds := Tag(m.displayName, ConditionKind, FilterList(m.conditions, prefix));
    var acts := Tag(m.displayName, ActionKind, FilterList(m.actions, prefix));
    var after := FindActions(modules[i + 1..], prefix);
    if !before.threw {
      FindActionsSplit(modules, prefix, i);
      assert FindActions(modules, prefix).items == before.items + Then(Then(conds, acts), after).items;
      if m.conditions.Some? && a in FilterActions(m.conditions.value, prefix).items {
        var k :| 0 <= k < |FilterList(m.conditions, prefix).items| && FilterList(m.conditions, prefix).items[k] == a;
        assert conds.items[k] == ActionResult(m.displayName, ConditionKind, a, 0);
        ThenKeepsPrefix(conds, acts, conds.items[k]);
        ThenKeepsPrefix(Then(conds, acts), after, conds.items[k]);
      }
      if !FilterList(m.conditions, prefix).threw && m.actions.Some? && a in FilterActions(m.actions.value, prefix).items {
        var k :| 0 <= k < |FilterList(m.actions, prefix).items| && FilterList(m.actions, prefix).items[k] == a;
        assert acts.items[k] == ActionResult(m.displayName, ActionKind, a, 0);
        assert Then(conds, acts).items == conds.items + acts.items;
        ThenKeepsPrefix(Then(conds, acts), after, acts.items[k]);
      }
    }
  }

  // ---------------------------------------------------------------------
  // Resolution.

  predicate OverloadMatches(c: ActionResult, i: nat, text: string, mm: Matchers)
  {
    i < |c.action.overloads| && mm.signatureMatches(c.action.overloads[i], text)
  }

  /** The first overload, in declared order, whose pattern matches `text`. */
  function FirstOverload(c: ActionResult, text: string, mm: Matchers, from: nat): (r: Option<nat>)
    ensures r.Some? ==> from <= r.value && OverloadMatches(c, r.value, text, mm)
    ensures r.Some? ==> forall j :: from <= j < r.value ==> !OverloadMatches(c, j, text, mm)
    ensures r.None? ==> forall j :: from <= j ==> !OverloadMatches(c, j, text, mm)
    decreases |c.action.overloads| - from
  {
    if from >= |c.action.overloads| then None
    else if mm.signatureMatches(c.action.overloads[from], text) then Some(from)
    else FirstOverload(c, text, mm, from + 1)
  }

  /** The first candidate with a matching overload, and that overload. */
  function FirstCandidate(cs: seq<ActionResult>, text: string, mm: Matchers): (r: Option<(nat, nat)>)
    ensures r.Some? ==> r.value.0 < |cs| && FirstOverload(cs[r.value.0], text, mm, 0) == Some(r.value.1)
    ensures r.Some? ==> forall k :: 0 <= k < r.value.0 ==> FirstOverload(cs[k], text, mm, 0).None?
    ensures r.None? ==> forall k :: 0 <= k < |cs| ==> FirstOverload(cs[k], text, mm, 0).None?
    decreases |cs|
  {
    if cs == [] then None
    else match FirstOverload(cs[0], text, mm, 0)
      case Some(i) => Some((0, i))
      case None =>
        match FirstCandidate(cs[1..], text, mm)
        case None => None
        case Some(p) => Some((p.0 + 1, p.1))
  }

  /** What `findAction(prefix, text)` returns. */
  function Resolve(modules: seq<Module>, prefix: string, text: string, mm: Matchers): Resolution
  {
    var g := FindActions(modules, prefix);
    match FirstCandidate(g.items, text, mm)
    case Some(p) => Resolved(g.items[p.0].(overload := p.1))
    case None =>
      if g.threw then Threw
      else if mm.isBooleanExpression(prefix, text) then Resolved(mm.booleanResult(text))
      else Unresolved
  }

  /**
   * The resolved action is the first candidate, in `findActions` order,
   * with any matching overload, and it records the first overload that
   * matches; with no such candidate, the outcome is the thrown error, the
   * boolean expression, or nothing.
   */
  lemma ResolveIsFirstMatch(modules: seq<Module>, prefix: string, text: string, mm: Matchers, k: nat, i: nat)
    requires k < |FindActions(modules, prefix).items|
    requires OverloadMatches(FindActions(modules, prefix).items[k], i, text, mm)
    requires forall j, o :: 0 <= j < k ==> !OverloadMatches(FindActions(modules, prefix).items[j], o, text, mm)
    requires forall o :: 0 <= o < i ==> !OverloadMatches(FindActions(modules, prefix).items[k], o, text, mm)
    ensures Resolve(modules, prefix, text, mm) == Resolved(FindActions(modules, prefix).items[k].(overload := i))
  {
    var cs := FindActions(modules, prefix).items;
    assert FirstOverload(cs[k], text, mm, 0) == Some(i);
    FirstCandidateIs(cs, text, mm, k, i);
  }

  lemma ResolveWithoutMatch(modules: seq<Module>, prefix: string, text: string, mm: Matchers)
    requires forall k, o :: 0 <= k < |FindActions(modules, prefix).items| ==>
               !OverloadMatches(FindActions(modules, prefix).items[k], o, text, mm)
    ensures Resolve(modules, prefix, text, mm) ==
              if FindActions(modules, prefix).threw then Threw
              else if mm.isBooleanExpression(prefix, text) then Resolved(mm.booleanResult(text))
              else Unresolved
  {
  }

  /** `findAction`: try the candidates in order, and each one's overloads in order. */
  method FindAction(modules: seq<Module>, prefix: string, text: string, mm: Matchers) returns (r: Resolution)
    ensures r == Resolve(modules, prefix, text, mm)
  {
    var candidates := FindActions(modules, prefix);
    var k := 0;
    while k < |candidates.items|
      invariant k <= |candidates.items|
      invariant forall j :: 0 <= j < k ==> FirstOverload(candidates.items[j], text, mm, 0).None?
    {
      var result := candidates.items[k];
      var i := 0;
      while i < |result.action.overloads|
        invariant i <= |result.action.overloads|
        invariant forall o :: 0 <= o < i ==> !OverloadMatches(result, o, text, mm)
      {
        if mm.signatureMatches(result.action.overloads[i], text) {
          assert OverloadMatches(result, i, text, mm);
          assert FirstOverload(result, text, mm, 0) == Some(i);
          FirstCandidateIs(candidates.items, text, mm, k, i);
          return Resolved(result.(overload := i));
        }
        i := i + 1;
      }
      assert FirstOverload(result, text, mm, 0).None?;
      k := k + 1;
    }
    assert FirstCandidate(candidates.items, text, mm).None?;
    if candidates.threw {
      return Threw;
    }
    if mm.isBooleanExpression(prefix, text) {
      return Resolved(mm.booleanResult(text));
    }
    return Unresolved;
  }

  lemma FirstCandidateIs(cs: seq<ActionResult>, text: string, mm: Matchers, k: nat, i: nat)
    requires k < |cs| && FirstOverload(cs[k], text, mm, 0) == Some(i)
    requires forall j :: 0 <= j < k ==> FirstOverload(cs[j], text, mm, 0).None?
    ensures FirstCandidate(cs, text, mm) == Some((k, i))
  {
  }

  // ---------------------------------------------------------------------
  // The invoked action of a task line.

  /** The length of the run of characters satisfying `p` in `s` from `i` on. */
  function RunOf(s: string, i: nat, p: char -> bool): (n: nat)
    requires i <= |s|
    ensures i + n <= |s|
    ensures forall k :: i <= k < i + n ==> p(s[k])
    ensures i + n < |s| ==> !p(s[i + n])
    decreases |s| - i
  {
    if i < |s| && p(s[i]) then 1 + RunOf(s, i + 1, p) else 0
  }

  /** A maximal run of characters satisfying `p` is the one `RunOf` measures. */
  lemma {:induction false} RunOfIsMaximalRun(s: string, i: nat, p: char -> bool, n: nat)
    requires i + n <= |s|
    requires forall k :: i <= k < i + n ==> p(s[k])
    requires i + n < |s| ==> !p(s[i + n])
    ensures RunOf(s, i, p) == n
    decreases n
  {
    if n > 0 {
      assert p(s[i]);
      RunOfIsMaximalRun(s, i + 1, p, n - 1);
    }
  }

  /** The leading word of a task line: `/^\s*([a-zA-Z]+)\s/`, group 1. */
  function InvokedPrefix(text: string): Option<string>
  {
    var w := RunOf(text, 0, IsJsSpace);
    var l := RunOf(text, w, IsAsciiLetter);
    if l > 0 && w + l < |text| && IsJsSpace(text[w + l]) then Some(text[w..w + l]) else None
  }

  /** `text` is `w` whitespace characters, `l` letters, then a whitespace character. */
  ghost predicate InvocationShape(text: string, w: nat, l: nat)
  {
    && 0 < l && w + l < |text|
    && (forall k :: 0 <= k < w ==> IsJsSpace(text[k]))
    && (forall k :: w <= k < w + l ==> IsAsciiLetter(text[k]))
    && IsJsSpace(text[w + l])
  }

  /** A line of that shape has the letter run as its leading word. */
  lemma ShapeGivesPrefix(text: string, w: nat, l: nat)
    requires InvocationShape(text, w, l)
    ensures InvokedPrefix(text) == Some(text[w..w + l])
  {
    RunOfIsMaximalRun(text, 0, IsJsSpace, w);
    RunOfIsMaximalRun(text, w, IsAsciiLetter, l);
  }

  /** The leading word is found exactly when the line has that shape, and it is the letter run. */
  lemma InvokedPrefixIsRegexGroup(text: string)
    ensures InvokedPrefix(text).Some? ==>
              exists w: nat, l: nat :: InvocationShape(text, w, l) && InvokedPrefix(text).value == text[w..w + l]
    ensures forall w: nat, l: nat :: InvocationShape(text, w, l) ==> InvokedPrefix(text) == Some(text[w..w + l])
  {
    var w0 := RunOf(text, 0, IsJsSpace);
    var l0 := RunOf(text, w0, IsAsciiLetter);
    if InvokedPrefix(text).Some? {
      assert InvocationShape(text, w0, l0);
    }
    forall w: nat, l: nat | InvocationShape(text, w, l) ensures InvokedPrefix(text) == Some(text[w..w + l]) {
      ShapeGivesPrefix(text, w, l);
    }
  }

  /** `findInvokedAction`: resolve the line's leading word, if it has one. */
  method FindInvokedAction(modules: seq<Module>, text: string, mm: Matchers) returns (r: Resolution)
    ensures InvokedPrefix(text).None? ==> r == Unresolved
    ensures InvokedPrefix(text).Some? ==> r == Resolve(modules, InvokedPrefix(text).value, text, mm)
  {
    var word := InvokedPrefix(text);
    if word.Some? {
      r := FindAction(modules, word.value, text, mm);
      return;
    }
    return Unresolved;
  }
}
