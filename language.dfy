/**
 * The base language tables behind completion and hover: symbols, keywords,
 * messages and global variables, and the groups of overloaded definitions.
 * Tables are JavaScript maps (insertion-ordered); a table that failed to
 * load is absent.
 */
module Language {
  import opened Common
  import opened OrderedMaps

  datatype Parameter = Parameter(name: string, description: string)

  datatype LanguageItem = LanguageItem(summary: string, signature: string, parameters: seq<Parameter>)

  datatype LanguageTable = LanguageTable(
    symbols: OrderedMap<string>,
    keywords: OrderedMap<LanguageItem>,
    messages: OrderedMap<LanguageItem>,
    globalVariables: OrderedMap<int>)
  {
    ghost predicate Valid()
    {
      symbols.Valid() && keywords.Valid() && messages.Valid() && globalVariables.Valid()
    }
  }

  /**
   * One overload of a definition; `matchPattern` is the optional explicit
   * pattern and `signature` the optional display text, `""` when absent.
   */
  datatype Definition = Definition(
    snippet: string,
    signature: string,
    matchPattern: string,
    summary: string,
    parameters: seq<Parameter>)

  datatype LanguageItemResult = LanguageItemResult(
    category: string,
    summary: string,
    signature: string,
    parameters: seq<Parameter>)

  const KeywordKind: string := "keyword"
  const MessageKind: string := "message"
  const DefinitionKind: string := "definition"
  const SymbolCategory: string := "symbol"
  const TaskCategory: string := "task"

  /** A regular expression: written out from a pattern, or derived from a signature snippet. */
  datatype Regex = Pattern(source: string) | FromSignature(snippet: string)

  /** The external pieces: `RegExp.test`, and the signature pretty-printer. */
  datatype Matchers = Matchers(test: (Regex, string) -> bool, prettySignature: string -> string)

  function ItemToResult(item: LanguageItem, category: string): LanguageItemResult
  {
    LanguageItemResult(category, item.summary, item.signature, item.parameters)
  }

  /** The summary of a global variable: `'Global variable number ' + n + '.'`. */
  function GlobalVariableSummary(n: int): string
  {
    "Global variable number " + IntToString(n) + "."
  }

  /** The number can be read back from the summary. */
  lemma GlobalVariableSummaryNamesNumber(n: int)
    ensures var s := GlobalVariableSummary(n);
            |s| > 24 && ParseInt(s[23..|s| - 1]) == Some(n)
  {
    var s := GlobalVariableSummary(n);
    assert s[23..|s| - 1] == IntToString(n);
    IntToStringRoundTrip(n);
  }

  /** Different global variables have different summaries. */
  lemma GlobalVariableSummaryInjective(a: int, b: int)
    ensures GlobalVariableSummary(a) == GlobalVariableSummary(b) ==> a == b
  {
    var sa, sb := GlobalVariableSummary(a), GlobalVariableSummary(b);
    if sa == sb {
      assert sa[23..|sa| - 1] == IntToString(a);
      assert sb[23..|sb| - 1] == IntToString(b);
      IntToStringInjective(a, b);
    }
  }

  // ---------------------------------------------------------------------
  // Prefix selection over map entries.

  /** The entries whose key starts with `prefix`, in iteration order. */
  function SelectByPrefix<V>(es: seq<(string, V)>, prefix: string): (r: seq<(string, V)>)
    ensures forall i :: 0 <= i < |r| ==> r[i] in es && StartsWith(r[i].0, prefix)
    ensures forall i :: 0 <= i < |es| && StartsWith(es[i].0, prefix) ==> es[i] in r
    decreases |es|
  {
    if es == [] then []
    else if StartsWith(es[0].0, prefix) then [es[0]] + SelectByPrefix(es[1..], prefix)
    else SelectByPrefix(es[1..], prefix)
  }

  /** Selection keeps the iteration order: it distributes over concatenation. */
  lemma {:induction false} SelectByPrefixAppend<V>(a: seq<(string, V)>, b: seq<(string, V)>, prefix: string)
    ensures SelectByPrefix(a + b, prefix) == SelectByPrefix(a, prefix) + SelectByPrefix(b, prefix)
    decreases |a|
  {
    if a == [] {
      assert a + b == b;
    } else {
      assert (a + b)[0] == a[0];
      assert (a + b)[1..] == a[1..] + b;
      SelectByPrefixAppend(a[1..], b, prefix);
    }
  }

  /** `filterItems`: the items whose key starts with `prefix`, in iteration order. */
  function FilterItems(items: OrderedMap<LanguageItem>, prefix: string): (r: seq<LanguageItem>)
    requires items.Valid()
    ensures |r| == |SelectByPrefix(items.Entries(), prefix)|
  {
    var sel := SelectByPrefix(items.Entries(), prefix);
    seq(|sel|, i requires 0 <= i < |sel| => sel[i].1)
  }

  /** Each item as a result of the given category. */
  function ItemsToResults(items: seq<LanguageItem>, category: string): (r: seq<LanguageItemResult>)
    ensures |r| == |items|
    ensures forall i :: 0 <= i < |r| ==> r[i] == ItemToResult(items[i], category)
  {
    seq(|items|, i requires 0 <= i < |items| => ItemToResult(items[i], category))
  }

  /** `r` holds, as results of `category`, exactly the items whose key starts with `prefix`. */
  ghost predicate YieldsItems(r: seq<LanguageItemResult>, m: OrderedMap<LanguageItem>, prefix: string, category: string)
  {
    && (forall i :: 0 <= i < |r| ==>
          exists k :: k in m.values && StartsWith(k, prefix) && r[i] == ItemToResult(m.values[k], category))
    && (forall k :: k in m.values && StartsWith(k, prefix) ==> ItemToResult(m.values[k], category) in r)
  }

  /** Filtering keeps exactly the items whose key starts with the prefix. */
  lemma FilterItemsYields(items: OrderedMap<LanguageItem>, prefix: string, category: string)
    requires items.Valid()
    ensures YieldsItems(ItemsToResults(FilterItems(items, prefix), category), items, prefix, category)
  {
    var es := items.Entries();
    var sel := SelectByPrefix(es, prefix);
    var r := ItemsToResults(FilterItems(items, prefix), category);
    forall i | 0 <= i < |r|
      ensures exists k :: k in items.values && StartsWith(k, prefix) && r[i] == ItemToResult(items.values[k], category)
    {
      assert sel[i] in es;
      var j :| 0 <= j < |es| && es[j] == sel[i];
      assert r[i] == ItemToResult(items.values[sel[i].0], category);
    }
    forall k | k in items.values && StartsWith(k, prefix) ensures ItemToResult(items.values[k], category) in r {
      assert (k, items.values[k]) in es;
      var j :| 0 <= j < |es| && es[j] == (k, items.values[k]);
      assert es[j] in sel;
      var i :| 0 <= i < |sel| && sel[i] == es[j];
      assert r[i] == ItemToResult(items.values[k], category);
    }
  }

  /** The results of a selection, one per entry. */
  function Project<V>(sel: seq<(string, V)>, f: ((string, V)) -> LanguageItemResult): (r: seq<LanguageItemResult>)
    ensures |r| == |sel|
    ensures forall i :: 0 <= i < |r| ==> r[i] == f(sel[i])
  {
    seq(|sel|, i requires 0 <= i < |sel| => f(sel[i]))
  }

  /** `r` holds exactly the results `f` gives the entries whose key starts with `prefix`. */
  ghost predicate YieldsEntries<V>(r: seq<LanguageItemResult>, m: OrderedMap<V>, prefix: string, f: ((string, V)) -> LanguageItemResult)
  {
    && (forall i :: 0 <= i < |r| ==>
          exists k :: k in m.values && StartsWith(k, prefix) && r[i] == f((k, m.values[k])))
    && (forall k :: k in m.values && StartsWith(k, prefix) ==> f((k, m.values[k])) in r)
  }

  lemma ProjectYields<V>(m: OrderedMap<V>, prefix: string, f: ((string, V)) -> LanguageItemResult)
    requires m.Valid()
    ensures YieldsEntries(Project(SelectByPrefix(m.Entries(), prefix), f), m, prefix, f)
  {
    var es := m.Entries();
    var sel := SelectByPrefix(es, prefix);
    var r := Project(sel, f);
    forall i | 0 <= i < |r|
      ensures exists k :: k in m.values && StartsWith(k, prefix) && r[i] == f((k, m.values[k]))
    {
      assert sel[i] in es;
      var j :| 0 <= j < |es| && es[j] == sel[i];
      assert sel[i] == (sel[i].0, m.values[sel[i].0]);
    }
    forall k | k in m.values && StartsWith(k, prefix) ensures f((k, m.values[k])) in r {
      assert (k, m.values[k]) in es;
      var j :| 0 <= j < |es| && es[j] == (k, m.values[k]);
      assert es[j] in sel;
      var i :| 0 <= i < |sel| && sel[i] == es[j];
      assert r[i] == f((k, m.values[k]));
    }
  }

  function SymbolResult(e: (string, string)): LanguageItemResult
  {
    LanguageItemResult(SymbolCategory, e.1, e.0, [])
  }

  function GlobalVariableResult(e: (string, int)): LanguageItemResult
  {
    LanguageItemResult(TaskCategory, GlobalVariableSummary(e.1), e.0 + " ${1:_varSymbol_}", [])
  }

  function DefinitionResult(d: Definition): LanguageItemResult
  {
    LanguageItemResult(DefinitionKind, d.summary, d.snippet, d.parameters)
  }

  /** Every overload of every selected group, group by group. */
  function DefinitionResults(sel: seq<(string, seq<Definition>)>): (r: seq<LanguageItemResult>)
    ensures forall i :: 0 <= i < |r| ==> r[i].category == DefinitionKind
    decreases |sel|
  {
    if sel == [] then []
    else
      var g := sel[0].1;
      seq(|g|, j requires 0 <= j < |g| => DefinitionResult(g[j])) + DefinitionResults(sel[1..])
  }

  /** `res` is the result for some overload of some selected group. */
  ghost predicate IsOverloadResult(sel: seq<(string, seq<Definition>)>, res: LanguageItemResult)
  {
    exists i, j :: 0 <= i < |sel| && 0 <= j < |sel[i].1| && res == DefinitionResult(sel[i].1[j])
  }

  /** Each overload of each group is yielded, and nothing else. */
  lemma {:induction false} DefinitionResultsMembers(sel: seq<(string, seq<Definition>)>)
    ensures forall n :: 0 <= n < |DefinitionResults(sel)| ==> IsOverloadResult(sel, DefinitionResults(sel)[n])
    ensures forall i, j :: 0 <= i < |sel| && 0 <= j < |sel[i].1| ==> DefinitionResult(sel[i].1[j]) in DefinitionResults(sel)
    decreases |sel|
  {
    if sel != [] {
      DefinitionResultsMembers(sel[1..]);
      var g := sel[0].1;
      var head := seq(|g|, j requires 0 <= j < |g| => DefinitionResult(g[j]));
      var tail := DefinitionResults(sel[1..]);
      var r := DefinitionResults(sel);
      assert r == head + tail;
      forall n | 0 <= n < |r| ensures IsOverloadResult(sel, r[n]) {
        if n < |head| {
          assert r[n] == DefinitionResult(sel[0].1[n]);
        } else {
          assert r[n] == tail[n - |head|];
          assert IsOverloadResult(sel[1..], tail[n - |head|]);
          var i, j :| 0 <= i < |sel[1..]| && 0 <= j < |sel[1..][i].1| && tail[n - |head|] == DefinitionResult(sel[1..][i].1[j]);
          assert sel[1..][i] == sel[i + 1];
          assert r[n] == DefinitionResult(sel[i + 1].1[j]);
        }
      }
      forall i, j | 0 <= i < |sel| && 0 <= j < |sel[i].1| ensures DefinitionResult(sel[i].1[j]) in r {
        if i == 0 {
          assert r[j] == DefinitionResult(sel[i].1[j]);
        } else {
          assert sel[1..][i - 1] == sel[i];
          assert DefinitionResult(sel[i].1[j]) in tail;
          var m :| 0 <= m < |tail| && tail[m] == DefinitionResult(sel[i].1[j]);
          assert r[|head| + m] == tail[m];
        }
      }
    }
  }

  // ---------------------------------------------------------------------
  // Definition matching.

  /** The pattern a definition is matched with: its explicit one, anchored, else its snippet's. */
  function DefinitionRegex(d: Definition): (r: Regex)
    ensures d.matchPattern != "" ==> r.Pattern? && r.source == "^\\s*" + d.matchPattern + "\\s*$"
    ensures d.matchPattern == "" ==> r == FromSignature(d.snippet)
  {
    if d.matchPattern != "" then Pattern("^\\s*" + d.matchPattern + "\\s*$") else FromSignature(d.snippet)
  }

  predicate Accepts(d: Definition, text: string, mm: Matchers)
  {
    mm.test(DefinitionRegex(d), text)
  }

  /** A definition after its missing signature has been filled in. */
  function Filled(d: Definition, mm: Matchers): (r: Definition)
    ensures d.signature == "" ==> r.signature == mm.prettySignature(d.snippet)
    ensures d.signature != "" ==> r == d
    ensures r.(signature := d.signature) == d
  {
    if d.signature == "" then d.(signature := mm.prettySignature(d.snippet)) else d
  }

  /** Filling in a signature does not change how the definition is matched. */
  lemma FilledMatchesAlike(d: Definition, text: string, mm: Matchers)
    ensures Accepts(Filled(d, mm), text, mm) == Accepts(d, text, mm)
  {
  }

  /** The position of the first definition of `g` that accepts `text`, or `|g|`. */
  function FirstAccepted(g: seq<Definition>, text: string, mm: Matchers): (k: nat)
    ensures k <= |g|
    ensures forall j :: 0 <= j < k ==> !Accepts(g[j], text, mm)
    ensures k < |g| ==> Accepts(g[k], text, mm)
    decreases |g|
  {
    if g == [] then 0
    else if Accepts(g[0], text, mm) then 0
    else 1 + FirstAccepted(g[1..], text, mm)
  }

  /** The group with the first `n` definitions filled in and the rest as they were. */
  function FillUpTo(g: seq<Definition>, n: nat, mm: Matchers): (r: seq<Definition>)
    ensures |r| == |g|
    ensures forall i :: 0 <= i < |r| ==> r[i] == if i < n then Filled(g[i], mm) else g[i]
  {
    seq(|g|, i requires 0 <= i < |g| => if i < n then Filled(g[i], mm) else g[i])
  }

  /** A group whose definitions all have signatures is stored back unchanged. */
  lemma FilledGroupUnchanged(defs: OrderedMap<seq<Definition>>, name: string, n: nat, mm: Matchers)
    requires defs.Valid() && name in defs.values
    requires forall i :: 0 <= i < |defs.values[name]| ==> defs.values[name][i].signature != ""
    ensures defs.Set(name, FillUpTo(defs.values[name], n, mm)) == defs
  {
    var g := defs.values[name];
    assert FillUpTo(g, n, mm) == g;
    SetSameValue(defs, name);
  }

  /**
   * The loop of `findDefinition` over one group: each definition in turn
   * gets its missing signature filled in and is then matched, until one
   * accepts `text`. Returns the group as the loop leaves it, and the
   * accepting definition.
   */
  method MatchGroup(g: seq<Definition>, text: string, mm: Matchers) returns (group: seq<Definition>, r: Option<Definition>)
    ensures FirstAccepted(g, text, mm) < |g| ==>
              && r == Some(Filled(g[FirstAccepted(g, text, mm)], mm))
              && group == FillUpTo(g, FirstAccepted(g, text, mm) + 1, mm)
    ensures FirstAccepted(g, text, mm) == |g| ==> r.None? && group == FillUpTo(g, |g|, mm)
  {
    group := g;
    var i := 0;
    while i < |group|
      invariant i <= |group| == |g|
      invariant group == FillUpTo(g, i, mm)
      invariant forall j :: 0 <= j < i ==> !Accepts(g[j], text, mm)
    {
      var definition := group[i];
      var regex := DefinitionRegex(definition);
      if definition.signature == "" {
        definition := definition.(signature := mm.prettySignature(definition.snippet));
        group := group[i := definition];
      }
      assert group == FillUpTo(g, i + 1, mm);
      if mm.test(regex, text) {
        assert FirstAccepted(g, text, mm) == i;
        return group, Some(definition);
      }
      i := i + 1;
    }
    assert FirstAccepted(g, text, mm) == |g|;
    return group, None;
  }

  // ---------------------------------------------------------------------
  // Building a map from a parsed object.

  function Keys<V>(obj: seq<(string, V)>): (ks: seq<string>)
    ensures |ks| == |obj| && forall i :: 0 <= i < |obj| ==> ks[i] == obj[i].0
  {
    seq(|obj|, i requires 0 <= i < |obj| => obj[i].0)
  }

  /** The distinct elements of `s` in order of first occurrence. */
  function Dedup(s: seq<string>): (r: seq<string>)
    ensures forall x :: x in r <==> x in s
    ensures forall i, j :: 0 <= i < j < |r| ==> r[i] != r[j]
    decreases |s|
  {
    if s == [] then []
    else
      var d := Dedup(s[..|s| - 1]);
      assert forall x :: x in s <==> x in s[..|s| - 1] || x == s[|s| - 1];
      if s[|s| - 1] in d then d else d + [s[|s| - 1]]
  }

  /** Without repetitions there is nothing to remove. */
  lemma {:induction false} DedupDistinct(s: seq<string>)
    requires forall i, j :: 0 <= i < j < |s| ==> s[i] != s[j]
    ensures Dedup(s) == s
    decreases |s|
  {
    if s != [] {
      var p := s[..|s| - 1];
      DedupDistinct(p);
      assert s[|s| - 1] !in p;
      assert p + [s[|s| - 1]] == s;
    }
  }

  /** The values an object's entries assign, a later entry for a key overriding an earlier one. */
  function Assigned<V>(obj: seq<(string, V)>): map<string, V>
    decreases |obj|
  {
    if obj == [] then map[] else Assigned(obj[..|obj| - 1])[obj[|obj| - 1].0 := obj[|obj| - 1].1]
  }

  /** Every key is assigned, and the value of its last entry wins. */
  lemma {:induction false} AssignedLastWins<V>(obj: seq<(string, V)>)
    ensures forall k :: k in Assigned(obj) <==> k in Keys(obj)
    ensures forall i :: 0 <= i < |obj| && (forall j :: i < j < |obj| ==> obj[j].0 != obj[i].0) ==>
              obj[i].0 in Assigned(obj) && Assigned(obj)[obj[i].0] == obj[i].1
    decreases |obj|
  {
    if obj != [] {
      var p := obj[..|obj| - 1];
      AssignedLastWins(p);
      assert forall i :: 0 <= i < |p| ==> p[i] == obj[i];
      assert forall k :: k in Keys(obj) <==> k in Keys(p) || k == obj[|obj| - 1].0;
    }
  }

  /**
   * `objectToMap`: set each of the object's keys, in `Object.keys` order,
   * to its value.
   */
  method ObjectToMap<V>(obj: seq<(string, V)>) returns (m: OrderedMap<V>)
    ensures m.Valid()
    ensures m.keys == Dedup(Keys(obj))
    ensures m.values == Assigned(obj)
  {
    m := Empty();
    var i := 0;
    while i < |obj|
      invariant i <= |obj|
      invariant m.Valid()
      invariant m.keys == Dedup(Keys(obj[..i]))
      invariant m.values == Assigned(obj[..i])
    {
      assert obj[..i + 1][..i] == obj[..i];
      assert Keys(obj[..i + 1])[..i] == Keys(obj[..i]);
      m := m.Set(obj[i].0, obj[i].1);
      i := i + 1;
    }
    assert obj[..i] == obj;
  }

  /**
   * An object has distinct keys; then the map built from it iterates
   * exactly the object's entries, in the same order.
   */
  lemma ObjectToMapKeepsEverything<V>(obj: seq<(string, V)>, m: OrderedMap<V>)
    requires forall i, j :: 0 <= i < j < |obj| ==> obj[i].0 != obj[j].0
    requires m.Valid() && m.keys == Dedup(Keys(obj)) && m.values == Assigned(obj)
    ensures m.Entries() == obj
  {
    DedupDistinct(Keys(obj));
    AssignedLastWins(obj);
  }

  // ---------------------------------------------------------------------
  // The tables.

  class Language {
    var table: Option<LanguageTable>
    var definitions: Option<OrderedMap<seq<Definition>>>

    ghost predicate Valid()
      reads this
    {
      && (table.Some? ==> table.value.Valid())
      && (definitions.Some? ==> definitions.value.Valid())
    }

    /** The tables as loading left them; either may be absent. */
    constructor (table: Option<LanguageTable>, definitions: Option<OrderedMap<seq<Definition>>>)
      requires table.Some? ==> table.value.Valid()
      requires definitions.Some? ==> definitions.value.Valid()
      ensures Valid()
      ensures this.table == table && this.definitions == definitions
    {
      this.table := table;
      this.definitions := definitions;
    }

    // Single-name lookups.

    function FindSymbol(name: string): (r: Option<string>)
      reads this
      ensures r.Some? <==> table.Some? && name in table.value.symbols.values
      ensures r.Some? ==> r.value == table.value.symbols.values[name]
    {
      if table.Some? && table.value.symbols.Has(name) then Some(table.value.symbols.values[name]) else None
    }

    function FindKeyword(name: string): (r: Option<LanguageItem>)
      reads this
      ensures r.Some? <==> table.Some? && name in table.value.keywords.values
      ensures r.Some? ==> r.value == table.value.keywords.values[name]
    {
      if table.Some? && table.value.keywords.Has(name) then Some(table.value.keywords.values[name]) else None
    }

    function FindMessage(name: string): (r: Option<LanguageItem>)
      reads this
      ensures r.Some? <==> table.Some? && name in table.value.messages.values
      ensures r.Some? ==> r.value == table.value.messages.values[name]
    {
      if table.Some? && table.value.messages.Has(name) then Some(table.value.messages.values[name]) else None
    }

    function FindGlobalVariable(name: string): (r: Option<int>)
      reads this
      ensures r.Some? <==> table.Some? && name in table.value.globalVariables.values
      ensures r.Some? ==> r.value == table.value.globalVariables.values[name]
    {
      if table.Some? && name in table.value.globalVariables.values then Some(table.value.globalVariables.values[name])
      else None
    }

    /**
     * `seekByName`: the symbol, else the keyword, else the message, else
     * the global variable of that name. A symbol with an empty description
     * and a global variable numbered 0 are falsy and skipped.
     */
    function SeekByName(name: string): (r: Option<LanguageItemResult>)
      reads this
    {
      var symbol := FindSymbol(name);
      var keyword := FindKeyword(name);
      var message := FindMessage(name);
      var globalVar := FindGlobalVariable(name);
      if symbol.Some? && symbol.value != "" then Some(LanguageItemResult("", symbol.value, "", []))
      else if keyword.Some? then Some(ItemToResult(keyword.value, KeywordKind))
      else if message.Some? then Some(ItemToResult(message.value, MessageKind))
      else if globalVar.Some? && globalVar.value != 0 then
        Some(LanguageItemResult(TaskCategory, GlobalVariableSummary(globalVar.value), name, []))
      else None
    }

    /** How many overloads a definition has; 0 when it is unknown. */
    function NumberOfOverloads(symbolType: string): (n: nat)
      reads this
      ensures definitions.Some? && symbolType in definitions.value.values ==> n == |definitions.value.values[symbolType]|
      ensures definitions.None? || symbolType !in definitions.value.values ==> n == 0
    {
      if definitions.Some? && symbolType in definitions.value.values then |definitions.value.values[symbolType]| else 0
    }

    // Prefix searches.

    function FindSymbols(prefix: string): (r: seq<LanguageItemResult>)
      reads this
      requires Valid()
      ensures table.None? ==> r == []
      ensures forall i :: 0 <= i < |r| ==> r[i].category == SymbolCategory
    {
      if table.None? then [] else Project(SelectByPrefix(table.value.symbols.Entries(), prefix), SymbolResult)
    }

    function FindKeywords(prefix: string): (r: seq<LanguageItemResult>)
      reads this
      requires Valid()
      ensures table.None? ==> r == []
      ensures forall i :: 0 <= i < |r| ==> r[i].category == KeywordKind
    {
      if table.None? then [] else ItemsToResults(FilterItems(table.value.keywords, prefix), KeywordKind)
    }

    function FindMessages(prefix: string): (r: seq<LanguageItemResult>)
      reads this
      requires Valid()
      ensures table.None? ==> r == []
      ensures forall i :: 0 <= i < |r| ==> r[i].category == MessageKind
    {
      if table.None? then [] else ItemsToResults(FilterItems(table.value.messages, prefix), MessageKind)
    }

    function FindGlobalVariables(prefix: string): (r: seq<LanguageItemResult>)
      reads this
      requires Valid()
      ensures table.None? ==> r == []
      ensures forall i :: 0 <= i < |r| ==> r[i].category == TaskCategory
    {
      if table.None? then [] else Project(SelectByPrefix(table.value.globalVariables.Entries(), prefix), GlobalVariableResult)
    }

    /** Every overload of every definition whose name starts with `prefix`. */
    function FindDefinitions(prefix: string): (r: seq<LanguageItemResult>)
      reads this
      requires Valid()
      ensures definitions.None? ==> r == []
      ensures forall i :: 0 <= i < |r| ==> r[i].category == DefinitionKind
    {
      if definitions.None? then [] else DefinitionResults(SelectByPrefix(definitions.value.Entries(), prefix))
    }

    /** `seekByPrefix`: keywords, then messages, then global variables, then definitions. */
    function SeekByPrefix(prefix: string): (r: seq<LanguageItemResult>)
      reads this
      requires Valid()
      ensures forall i :: 0 <= i < |r| ==> r[i].category in {KeywordKind, MessageKind, TaskCategory, DefinitionKind}
    {
      FindKeywords(prefix) + FindMessages(prefix) + FindGlobalVariables(prefix) + FindDefinitions(prefix)
    }

    /**
     * `findDefinition`: the first definition of the group that accepts
     * `text`. Every definition tried, the returned one included, gets its
     * missing signature filled in, in place.
     */
    method FindDefinition(name: string, text: Option<string>, mm: Matchers) returns (r: Option<Definition>)
      requires Valid()
      modifies this
      ensures Valid()
      ensures table == old(table)
      ensures text.None? || text.value == "" || old(definitions).None? || name !in old(definitions).value.values
              ==> r.None? && definitions == old(definitions)
      ensures text.Some? && text.value != "" && old(definitions).Some? && name in old(definitions).value.values ==>
                var g := old(definitions).value.values[name];
                var k := FirstAccepted(g, text.value, mm);
                && r == (if k < |g| then Some(Filled(g[k], mm)) else None)
                && definitions == Some(old(definitions).value.Set(name, FillUpTo(g, if k < |g| then k + 1 else |g|, mm)))
    {
      if text.None? || text.value == "" || definitions.None? || name !in definitions.value.values {
        return None;
      }
      var defs := definitions.value;
      var filled;
      filled, r := MatchGroup(defs.values[name], text.value, mm);
      definitions := Some(defs.Set(name, filled));
    }
  }

  // ---------------------------------------------------------------------
  // Properties of the lookups.

  /** Nothing is found before the tables are loaded. */
  lemma UnloadedFindsNothing(l: Language, name: string, prefix: string)
    requires l.Valid() && l.table.None? && l.definitions.None?
    ensures l.SeekByName(name).None?
    ensures l.SeekByPrefix(prefix) == [] && l.FindSymbols(prefix) == []
    ensures l.NumberOfOverloads(name) == 0
  {
  }

  /** What `seekByName` reports, by the table the name is found in. */
  lemma SeekByNamePriority(l: Language, name: string)
    requires l.table.Some?
    ensures var t := l.table.value;
            var symbolFound := name in t.symbols.values && t.symbols.values[name] != "";
            var globalFound := name in t.globalVariables.values && t.globalVariables.values[name] != 0;
            && (symbolFound ==> l.SeekByName(name) == Some(LanguageItemResult("", t.symbols.values[name], "", [])))
            && (!symbolFound && name in t.keywords.values ==>
                  l.SeekByName(name) == Some(ItemToResult(t.keywords.values[name], KeywordKind)))
            && (!symbolFound && name !in t.keywords.values && name in t.messages.values ==>
                  l.SeekByName(name) == Some(ItemToResult(t.messages.values[name], MessageKind)))
            && (!symbolFound && name !in t.keywords.values && name !in t.messages.values && globalFound ==>
                  l.SeekByName(name) == Some(LanguageItemResult(TaskCategory, GlobalVariableSummary(t.globalVariables.values[name]), name, [])))
            && (l.SeekByName(name).None? <==>
                  !symbolFound && name !in t.keywords.values && name !in t.messages.values && !globalFound)
  {
  }

  /** A global variable numbered 0 is never reported by name, nor a symbol with no description. */
  lemma SeekByNameSkipsFalsy(l: Language, name: string)
    requires l.table.Some?
    requires name in l.table.value.globalVariables.values && l.table.value.globalVariables.values[name] == 0
    requires name !in l.table.value.keywords.values && name !in l.table.value.messages.values
    requires name !in l.table.value.symbols.values || l.table.value.symbols.values[name] == ""
    ensures l.SeekByName(name).None?
  {
  }

  /** The prefix searches over the tables yield exactly the entries whose key starts with the prefix. */
  lemma PrefixSearchesYieldMatchingEntries(l: Language, prefix: string)
    requires l.Valid() && l.table.Some?
    ensures YieldsEntries(l.FindSymbols(prefix), l.table.value.symbols, prefix, SymbolResult)
    ensures YieldsItems(l.FindKeywords(prefix), l.table.value.keywords, prefix, KeywordKind)
    ensures YieldsItems(l.FindMessages(prefix), l.table.value.messages, prefix, MessageKind)
    ensures YieldsEntries(l.FindGlobalVariables(prefix), l.table.value.globalVariables, prefix, GlobalVariableResult)
  {
    ProjectYields(l.table.value.symbols, prefix, SymbolResult);
    FilterItemsYields(l.table.value.keywords, prefix, KeywordKind);
    FilterItemsYields(l.table.value.messages, prefix, MessageKind);
    ProjectYields(l.table.value.globalVariables, prefix, GlobalVariableResult);
  }

  /** `res` is the result for some overload of a group whose name starts with `prefix`. */
  ghost predicate IsPrefixedOverload(d: OrderedMap<seq<Definition>>, prefix: string, res: LanguageItemResult)
  {
    exists k, j :: k in d.values && StartsWith(k, prefix) && 0 <= j < |d.values[k]| && res == DefinitionResult(d.values[k][j])
  }

  /** `findDefinitions` yields every overload of every group whose name starts with the prefix, and nothing else. */
  lemma FindDefinitionsYieldsOverloads(l: Language, prefix: string)
    requires l.Valid() && l.definitions.Some?
    ensures forall n :: 0 <= n < |l.FindDefinitions(prefix)| ==>
              IsPrefixedOverload(l.definitions.value, prefix, l.FindDefinitions(prefix)[n])
    ensures forall k, j :: k in l.definitions.value.values && StartsWith(k, prefix)
                           && 0 <= j < |l.definitions.value.values[k]| ==>
              DefinitionResult(l.definitions.value.values[k][j]) in l.FindDefinitions(prefix)
  {
    var d := l.definitions.value;
    var es := d.Entries();
    var sel := SelectByPrefix(es, prefix);
    var r := l.FindDefinitions(prefix);
    assert r == DefinitionResults(sel);
    DefinitionResultsMembers(sel);
    forall n | 0 <= n < |r| ensures IsPrefixedOverload(d, prefix, r[n]) {
      assert IsOverloadResult(sel, r[n]);
      var i, j :| 0 <= i < |sel| && 0 <= j < |sel[i].1| && r[n] == DefinitionResult(sel[i].1[j]);
      assert sel[i] in es && StartsWith(sel[i].0, prefix);
      var p :| 0 <= p < |es| && es[p] == sel[i];
      var k := sel[i].0;
      assert k in d.values && sel[i].1 == d.values[k];
      assert r[n] == DefinitionResult(d.values[k][j]);
    }
    forall k, j | k in d.values && StartsWith(k, prefix) && 0 <= j < |d.values[k]|
      ensures DefinitionResult(d.values[k][j]) in r
    {
      assert (k, d.values[k]) in es;
      var p :| 0 <= p < |es| && es[p] == (k, d.values[k]);
      assert es[p] in sel;
      var i :| 0 <= i < |sel| && sel[i] == es[p];
      assert DefinitionResult(sel[i].1[j]) in r;
    }
  }

  /** The rank of a `seekByPrefix` category in its output. */
  function CategoryRank(category: string): nat
  {
    if category == KeywordKind then 0
    else if category == MessageKind then 1
    else if category == TaskCategory then 2
    else 3
  }

  /**
   * `seekByPrefix` yields keywords, then messages, then global variables,
   * then definitions, and never a symbol, although `findSymbols` exists.
   */
  lemma SeekByPrefixOrder(l: Language, prefix: string)
    requires l.Valid()
    ensures forall i, j :: 0 <= i < j < |l.SeekByPrefix(prefix)| ==>
              CategoryRank(l.SeekByPrefix(prefix)[i].category) <= CategoryRank(l.SeekByPrefix(prefix)[j].category)
    ensures forall i, j :: 0 <= i < |l.SeekByPrefix(prefix)| && 0 <= j < |l.FindSymbols(prefix)| ==>
              l.SeekByPrefix(prefix)[i] != l.FindSymbols(prefix)[j]
  {
    RanksOfConcatenation(l.FindKeywords(prefix), l.FindMessages(prefix), l.FindGlobalVariables(prefix), l.FindDefinitions(prefix));
  }

  lemma RanksOfConcatenation(kw: seq<LanguageItemResult>, ms: seq<LanguageItemResult>, gv: seq<LanguageItemResult>, df: seq<LanguageItemResult>)
    requires forall i :: 0 <= i < |kw| ==> kw[i].category == KeywordKind
    requires forall i :: 0 <= i < |ms| ==> ms[i].category == MessageKind
    requires forall i :: 0 <= i < |gv| ==> gv[i].category == TaskCategory
    requires forall i :: 0 <= i < |df| ==> df[i].category == DefinitionKind
    ensures forall i, j :: 0 <= i < j < |kw + ms + gv + df| ==>
              CategoryRank((kw + ms + gv + df)[i].category) <= CategoryRank((kw + ms + gv + df)[j].category)
  {
    var r := kw + ms + gv + df;
    forall i | 0 <= i < |r|
      ensures CategoryRank(r[i].category) == if i < |kw| then 0 else if i < |kw| + |ms| then 1
                                             else if i < |kw| + |ms| + |gv| then 2 else 3
    {
      if i < |kw| {
        assert r[i] == kw[i];
      } else if i < |kw| + |ms| {
        assert r[i] == ms[i - |kw|];
      } else if i < |kw| + |ms| + |gv| {
        assert r[i] == gv[i - |kw| - |ms|];
      } else {
        assert r[i] == df[i - |kw| - |ms| - |gv|];
      }
    }
  }

  /** Matching a definition never changes the number of overloads of any name. */
  lemma FindDefinitionKeepsOverloads(g: seq<Definition>, d: OrderedMap<seq<Definition>>, name: string, n: nat, mm: Matchers, k: string)
    requires d.Valid() && name in d.values && g == d.values[name]
    ensures var d' := d.Set(name, FillUpTo(g, n, mm));
            (k in d'.values <==> k in d.values) && (k in d.values ==> |d'.values[k]| == |d.values[k]|)
  {
  }
}
