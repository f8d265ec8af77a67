# Daggerfall quest templates: language core, in Dafny

This project models the core of a Visual Studio Code language extension for
Daggerfall quest templates and proves properties of the model. The core has
four parts:

- **The QRC block** (`Qrc`, file `qrc.dfy`). This is the quest's block of text
  messages.
  - Lines reach `Parse` one at a time.
  - A header line registers a message and opens a message block.
  - Each later line inside the block becomes text of the last message. Its
    `%macro` tokens are recorded with their exact columns.
  - Any other line closes the block and is recorded as not understood.
  - Messages can be looked up by id or alias.
  - `GetAvailableId` probes for the first free id.
- **Action resolution** (`Modules`, file `modules.dfy`). Modules list conditions
  and actions, and each action has overloaded signatures.
  - The candidates for a prefix are collected module by module: conditions
    first, then actions.
  - An action without any overload makes the scan throw, as the TypeError of
    the original does.
  - Resolving a task line picks the first candidate with a matching overload.
    The recorded overload is the first one that matches.
  - The line's leading word is that of `/^\s*([a-zA-Z]+)\s/`.
- **The language tables** (`Language`, file `language.dfy`). These are symbols,
  keywords, messages, global variables and groups of overloaded definitions,
  all kept as insertion-ordered maps (`OrderedMaps`, file `orderedmap.dfy`).
  - Lookup by name follows a fixed priority, including the falsy values the
    original skips.
  - Prefix searches yield exactly the entries whose key starts with the prefix.
  - `FindDefinition` modifies the table: each definition it tries gets its
    missing signature filled in, in place.
  - `ObjectToMap` builds a map from the entries of a parsed object.
- **Hover descriptions** (`HoverProvider`, file `hover.dfy`). The text for a
  derived form of a quest symbol depends on its `_` or `=` markers and on the
  symbol's type.
  - The nested conditions of the original are proved equal to a table indexed
    by marker count.

`Common` (file `common.dfy`) holds the JavaScript string behaviour the core
relies on:

- `startsWith`;
- `substring`, including its argument swap;
- the whitespace class `\s`;
- decimal `String(n)`, with a parse-back round trip.

Stateful parts are classes: `Qrc.Qrc` and `Language.Language`. The loops of
the original are `while` loops, each proved against a function that specifies
it:

- the `regex.exec` loop: `ScanMacros` against `MacrosFrom`;
- `getAvailableId`;
- the overload loops of `findAction`: `FindAction` against `Resolve`;
- the group loop of `findDefinition`: `MatchGroup` against `FirstAccepted`;
- `objectToMap`: `ObjectToMap` against `Dedup` and `Assigned`.

The generators of the original (`filterActions`, `findActions`,
`filterItems`, the `find*s` searches) are pure functions on sequences. They
have no state of their own.

Code outside the model, and the JavaScript regex engine, are parameters of
function type:

- the quest parser's helpers;
- `Number(...)`;
- the static-message alias table;
- `makeRegexFromSignature`, `RegExp.test` and `prettySignature`;
- `BooleanExpression`.

The one regular expression whose meaning matters is written out and reasoned
about. That is the macro pattern `/%[a-z0-9]+\b/g`, where `\b` is taken
against the JavaScript word class `[A-Za-z0-9_]`.

Two places where the model is more precise than a plain reading of the
behaviour:

- `filterActions` looks at `overloads[0]` of every action. For an action
  declared with no overloads, this is `undefined.startsWith(...)` and throws.
  - The model keeps that: `FilterActions` reports that it threw.
  - `Resolve` still returns a match found among the candidates yielded before
    the throw, since the generator is consumed lazily.
- `getMessage` and `getAvailableId` search with `find`. A later message with a
  duplicate id is never returned by `getMessage`.

## Model

| member | source | states |
|---|---|---|
| Common.JsSubstring | src/providers/hoverProvider.ts:230 | `substring(a, b)` with bounds inside the string is the slice between them, taken the other way round when `a > b`; two bounds at or below 0 give the empty string; the result is never longer than the string. |
| Common.IntToStringRoundTrip | src/language/language.ts:124 | The decimal text of any integer, sign included, parses back to the same integer. |
| Common.IntToStringInjective | src/language/qrc.ts:101 | Different ids have different decimal texts. |
| OrderedMaps.OrderedMap.Set | src/language/language.ts:308 | `map.set(k, v)`: the value of `k` becomes `v`; a key already present keeps its position; a new key goes last; keys stay distinct. |
| OrderedMaps.OrderedMap.Entries | src/language/language.ts:187-188 | Iterating a map yields one `[key, value]` pair per key, in insertion order, with that key's own value; every key's pair is among them. |
| OrderedMaps.SetSameValue | src/language/language.ts:308 | Setting a key to the value it already has leaves the map equal to what it was. |
| HoverProvider.GetSymbolDescription | src/providers/hoverProvider.ts:162-221 | The hover text of a derived form; it has no contract of its own, and `HoverProvider.DescriptionFollowsTable` with the row lemmas below states what it returns for every symbol and type. |
| HoverProvider.FormatSymbol | src/providers/hoverProvider.ts:229-231 | A backtick, then `derived[leftIndex+1 .. length-1)` when those bounds are in order, then a backtick; every result is wrapped in backticks. |
| HoverProvider.DescriptionFollowsTable | src/providers/hoverProvider.ts:162-221 | The nested conditions give, for every symbol and type, the text of the table indexed by the number of leading `_` (four or more count as four) or else leading `=` (two or more as two), with the name cut after the last counted marker; `undefined value for the type ...` where the table has no entry. |
| HoverProvider.ShopRowFollowsTable | src/providers/hoverProvider.ts:189-199 | One leading `_`: shop name for Place; name for Item, Person and Foe; base definition mentioning `=name_` for Clock; otherwise undefined. |
| HoverProvider.TownRowFollowsTable | src/providers/hoverProvider.ts:180-187 | Two leading `_`: the shop's town for Place, the house or shop for Person, otherwise undefined. |
| HoverProvider.DungeonRowFollowsTable | src/providers/hoverProvider.ts:171-178 | Three leading `_`: dungeon name for Place, town name for Person, otherwise undefined. |
| HoverProvider.ProvinceRowFollowsTable | src/providers/hoverProvider.ts:166-170 | Four or more leading `_`: a province description for Place only; every other type falls through to undefined. |
| HoverProvider.EqualsRowsFollowTable | src/providers/hoverProvider.ts:201-217 | `==`: faction association for Person and Foe; single `=`: class for Person, name for Foe, active days for Clock; otherwise undefined. |
| HoverProvider.UnmarkedSymbolIsUndefined | src/providers/hoverProvider.ts:220 | A symbol starting with neither `_` nor `=`, or empty, always gets the undefined-value text. |
| HoverProvider.FormatSymbolRecoversName | src/providers/hoverProvider.ts:223-231 | Cutting `markers + name + last` at the last marker gives back exactly `name`, in backticks. |
| HoverProvider.DungeonOfPlace | src/providers/hoverProvider.ts:172-174 | `___name_` of a Place reads "the dungeon name of `name`." |
| Qrc.TokenLengthIsGreedy | src/language/qrc.ts:112 | A macro match at a given column has exactly one length: `%` plus the whole run of `[a-z0-9]` after it. |
| Qrc.Exec | src/language/qrc.ts:112-114 | `regex.exec` from `lastIndex`: any match found starts at or after `lastIndex`, is at least two characters long and lies inside the line. |
| Qrc.ExecFindsLeftmost | src/language/qrc.ts:112-114 | What `exec` finds is a match of `/%[a-z0-9]+\b/`, and no match starts between `lastIndex` and it; when it finds nothing there is no match from `lastIndex` on. |
| Qrc.MacrosAreMatches | src/language/qrc.ts:114-118 | Every recorded macro lies on its line's number, spans `[index, index + length)`, its symbol is the line's text over that span, and the pattern matches there. |
| Qrc.MacrosAreOrdered | src/language/qrc.ts:114-118 | The macros recorded for one line are left to right and do not overlap. |
| Qrc.MacrosAreComplete | src/language/qrc.ts:112-119 | Every column of the line where the pattern matches starts a recorded macro. |
| Qrc.ScanStep | src/language/qrc.ts:114-119 | One round of the `exec` loop: the macros found so far, followed by all macros after the new `lastIndex`, are still all the macros of the line. |
| Qrc.ScanMacros | src/language/qrc.ts:112-119 | The `while (regex.exec(...))` loop records exactly the line's macro sequence `MacrosFrom(line, 0)`, with columns counted in characters (see Left out on UTF-16). |
| Qrc.FlattenAppend | src/language/qrc.ts:81-85 | The message text of `ms + [m]` is that of `ms` followed by `m`'s text block. |
| Qrc.FlattenMembers | src/language/qrc.ts:81-85 | A line is message text exactly when it is in the text block of some message. |
| Qrc.ExtendLastMessage | src/language/qrc.ts:109 | Pushing a line onto the last message's text block appends it to the message text as a whole. |
| Qrc.FirstIndex | src/language/qrc.ts:74 | The index of a message with the id, with no earlier message carrying it; none only when no message carries it. |
| Qrc.FindById | src/language/qrc.ts:74 | `messages.find(x => x.id === id)` finds a message exactly when some message carries the id. |
| Qrc.FirstIndexKeepsEarliest | src/language/qrc.ts:100-104 | Registering a message with an id already in use does not change which message `find` returns for it. |
| Qrc.Qrc.constructor | src/language/qrc.ts:22-29 | A new block has no messages, no macros, no failed lines and no open message block. |
| Qrc.Qrc.MessageLines | src/language/qrc.ts:81-85 | `iterateMessageLines` yields a line exactly when it belongs to the text block of some message (the sequence is their concatenation in message order). |
| Qrc.Qrc.KindOf | src/language/qrc.ts:39-64 | Which of the four paths `parse` takes for a line, tested in the source's order; it has no contract of its own, and `Qrc.Qrc.Parse` states the new state on each path. |
| Qrc.Qrc.Parse | src/language/qrc.ts:36-65 | By the first path that applies. (1) Inside the open block: the line is appended to the last message, the message text grows by that line, its macros are appended, nothing else changes. (2) A static header appends one message with the id and alias and opens a block at the line. (3) An id header does the same without an alias. (4) Otherwise the block is closed and the line appended to `failedParse`, messages and macros unchanged. Every recorded macro stays a match on a line of message text. |
| Qrc.Qrc.GetMessage | src/language/qrc.ts:67-76 | The key resolves as a number, else through the alias table; a message is returned exactly when the resolved id exists, is not 0 and is used; it is the first message in declaration order with that id. |
| Qrc.Qrc.GetAvailableId | src/language/qrc.ts:87-98 | Terminates with an id at least `current` that no message uses, every id from `current` up to it being in use. |
| Qrc.Qrc.RegisterMessage | src/language/qrc.ts:100-104 | Appends exactly one message with the id, the range of the id's text and the alias, even when the id is already in use; the message text and all other fields are unchanged. |
| Qrc.Qrc.ParseMessageLine | src/language/qrc.ts:106-120 | The line is pushed onto the last message's text block and nothing else in the messages changes; exactly the line's macros are appended, left to right; the cursor and the failed lines are unchanged. |
| Modules.FilterActions | src/language/modules.ts:136-142 | `filterActions` as a pure generator result (the actions yielded, and whether it then threw); it has no contract of its own, and `Modules.FilterActionsMembers`, `Modules.FilterActionsThrows` and `Modules.FilterActionsAppend` state which actions it yields, in which order, and when it throws. |
| Modules.FilterActionsSound | src/language/modules.ts:136-142 | Every action `filterActions` yields was at a position where its first overload starts with the prefix, and no action up to there lacks overloads. |
| Modules.FilterActionsComplete | src/language/modules.ts:136-142 | Every action whose first overload starts with the prefix, with no action lacking overloads at or before it, is yielded. |
| Modules.FilterActionsMembers | src/language/modules.ts:136-142 | Both directions together: yielded exactly when its first overload starts with the prefix and it comes before the first action without overloads; later overloads play no part. |
| Modules.FilterActionsThrows | src/language/modules.ts:138 | The scan throws exactly when some action has no overloads. |
| Modules.FilterActionsAppend | src/language/modules.ts:136-142 | Filtering a concatenation is filtering the first part, then the second if the first did not throw: order is kept. |
| Modules.Tag | src/language/modules.ts:86-93 | One result per yielded action, in order, with the module's display name, the list's kind and overload 0; a throw is passed on. |
| Modules.ModuleCandidates | src/language/modules.ts:85-94 | One module's candidates, its conditions then its actions, an absent list yielding nothing; it has no contract of its own, and `Modules.FindActionsSplit` and `Modules.CandidatesCoverModules` state its place and contents. |
| Modules.FindActions | src/language/modules.ts:83-96 | `findActions` over the module list; it has no contract of its own, and `Modules.FindActionsAppend`, `Modules.FindActionsSplit`, `Modules.CandidatesComeFromModules` and `Modules.CandidatesCoverModules` state its order and contents. |
| Modules.FindActionsAppend | src/language/modules.ts:83-96 | The candidates of a list of modules are those of its first part followed by those of the rest: modules are visited in order. |
| Modules.FindActionsSplit | src/language/modules.ts:84-95 | The candidates of module `i` follow those of all earlier modules and precede those of all later ones, and within the module the conditions precede the actions. |
| Modules.CandidatesCoverModules | src/language/modules.ts:84-95 | Every action a module's filter keeps is a candidate, with that module's display name, the list's kind and overload 0, unless a list scanned before it threw (an earlier module's, or for actions the module's own conditions). |
| Modules.CandidatesComeFromModules | src/language/modules.ts:83-96 | Every candidate has overload 0 and the display name of a module that lists its action, under the matching kind, among the filtered conditions or actions. |
| Modules.FirstOverload | src/language/modules.ts:67-72 | The first overload index whose pattern matches the text; none when no overload matches. |
| Modules.FirstCandidate | src/language/modules.ts:66-73 | The first candidate with any matching overload, and that overload; none when no candidate has one. |
| Modules.Resolve | src/language/modules.ts:65-77 | What `findAction` returns; it has no contract of its own, and `Modules.ResolveIsFirstMatch` and `Modules.ResolveWithoutMatch` state its result in every case. |
| Modules.ResolveIsFirstMatch | src/language/modules.ts:65-73 | If candidate `k` is the first with a matching overload and `i` its first matching overload, `findAction` returns candidate `k` with `overload = i`. |
| Modules.ResolveWithoutMatch | src/language/modules.ts:73-77 | With no matching overload anywhere: the thrown error if the scan threw, else the boolean-expression result if the text is one, else nothing. |
| Modules.FindAction | src/language/modules.ts:65-77 | The nested loops compute `Resolve`: the outcome the two lemmas above characterise. |
| Modules.InvokedPrefix | src/language/modules.ts:103 | The leading word of a task line; it has no contract of its own, and `Modules.ShapeGivesPrefix` and `Modules.InvokedPrefixIsRegexGroup` state that it is group 1 of `/^\s*([a-zA-Z]+)\s/`, found exactly when the regex matches. |
| Modules.ShapeGivesPrefix | src/language/modules.ts:103 | A line of `w` whitespace characters, `l > 0` ASCII letters and a whitespace character has those letters as its leading word. |
| Modules.InvokedPrefixIsRegexGroup | src/language/modules.ts:103-104 | A leading word is found exactly when the line has that shape, and it is then group 1 of `/^\s*([a-zA-Z]+)\s/`. |
| Modules.FindInvokedAction | src/language/modules.ts:102-107 | Nothing without a leading word; otherwise the resolution of the line with that word as the prefix. |
| Language.GlobalVariableSummaryNamesNumber | src/language/language.ts:124 | The number of a global variable can be read back from its summary text. |
| Language.GlobalVariableSummaryInjective | src/language/language.ts:124 | Different numbers give different summary texts. |
| Language.SelectByPrefix | src/language/language.ts:187-188 | Keeps an entry exactly when its key starts with the prefix. |
| Language.SelectByPrefixAppend | src/language/language.ts:280-283 | Selection distributes over concatenation, so the iteration order of the map is kept. |
| Language.ItemToResult | src/language/language.ts:287-294 | `itemToResult`: the category with the item's summary, signature and parameters; it has no contract of its own, and `Language.ItemsToResults` and `Language.SeekByNamePriority` state the results built with it. |
| Language.FilterItems | src/language/language.ts:279-285 | One item per selected entry; `Language.FilterItemsYields` states that these are exactly the items whose key starts with the prefix. |
| Language.ItemsToResults | src/language/language.ts:287-294 | One result per item, in order, each with the category and the item's summary, signature and parameters. |
| Language.FilterItemsYields | src/language/language.ts:279-285 | `filterItems` followed by `itemToResult` yields a result for every item whose key starts with the prefix, and only for such items. |
| Language.ProjectYields | src/language/language.ts:185-193 | A search over map entries yields a result for every entry whose key starts with the prefix, and only for such entries. |
| Language.DefinitionResults | src/language/language.ts:229-232 | Every result of the definition search has category `definition`. |
| Language.DefinitionResultsMembers | src/language/language.ts:226-234 | Every overload of every selected group is yielded, and nothing else. |
| Language.DefinitionRegex | src/language/language.ts:165-166 | An explicit `match` pattern wins, anchored as `^\s*` + pattern + `\s*$`; without one, the snippet's signature pattern. |
| Language.Filled | src/language/language.ts:167-169 | An empty signature becomes the pretty-printed snippet; a signature already present, and every other field, stays. |
| Language.FilledGroupUnchanged | src/language/language.ts:164-170 | A group whose definitions all have signatures is stored back as it was, so the definitions table is unchanged. |
| Language.FilledMatchesAlike | src/language/language.ts:165-170 | Filling in the signature does not change whether a definition accepts the text. |
| Language.FirstAccepted | src/language/language.ts:164-172 | The first position whose definition accepts the text, or the group length when none does. |
| Language.MatchGroup | src/language/language.ts:164-173 | The group loop returns the first accepting definition, with its signature filled in. The definitions up to and including it are filled, those after it are unchanged; all of them are filled when none accepts. |
| Language.Dedup | src/language/language.ts:307-308 | The keys as `set` leaves them: each once, exactly those present. |
| Language.AssignedLastWins | src/language/language.ts:307-309 | Every key of the object gets a value, and the value of its last entry wins. |
| Language.ObjectToMap | src/language/language.ts:305-311 | The loop builds a valid map whose keys are the object's distinct keys in first-occurrence order, with the assigned values. |
| Language.ObjectToMapKeepsEverything | src/language/language.ts:305-311 | For an object (distinct keys) the map iterates exactly the object's entries, in `Object.keys` order: every key and value is kept. |
| Language.Language.constructor | src/language/language.ts:54-95 | The language as its field initialisers (both tables `null`) and `load`'s assignments leave it: either table possibly absent, each a valid map. |
| Language.Language.FindSymbol | src/language/language.ts:141-145 | Found exactly when the tables are loaded and the symbol table has the name; then it is the stored description. |
| Language.Language.FindKeyword | src/language/language.ts:147-151 | Found exactly when the tables are loaded and the keyword table has the name; then it is the stored item. |
| Language.Language.FindMessage | src/language/language.ts:153-157 | Found exactly when the tables are loaded and the message table has the name; then it is the stored item. |
| Language.Language.FindGlobalVariable | src/language/language.ts:179-183 | Found exactly when the tables are loaded and the name is a global variable; then it is its number. |
| Language.Language.SeekByName | src/language/language.ts:106-126 | `seekByName`; it has no contract of its own, and `Language.SeekByNamePriority`, `Language.SeekByNameSkipsFalsy` and `Language.UnloadedFindsNothing` state its result in every case. |
| Language.Language.NumberOfOverloads | src/language/language.ts:243-252 | The length of the name's group, or 0 when the definitions or the group are absent. |
| Language.Language.FindSymbols | src/language/language.ts:185-193 | Nothing before loading; every result has category `symbol`. |
| Language.Language.FindKeywords | src/language/language.ts:195-201 | Nothing before loading; every result has category `keyword`. |
| Language.Language.FindMessages | src/language/language.ts:203-209 | Nothing before loading; every result has category `message`. |
| Language.Language.FindGlobalVariables | src/language/language.ts:211-222 | Nothing before loading; every result has category `task`. |
| Language.Language.FindDefinitions | src/language/language.ts:224-237 | Nothing before loading; every result has category `definition`. |
| Language.Language.SeekByPrefix | src/language/language.ts:131-139 | Every result is a keyword, message, global-variable or definition result. |
| Language.Language.FindDefinition | src/language/language.ts:159-177 | Nothing, with the definitions unchanged, for an absent or empty text, unloaded definitions or an unknown name. Otherwise the first definition of the group that accepts the text, with its signature filled in, and the group stored back with every definition tried filled in and the rest unchanged. |
| Language.UnloadedFindsNothing | src/language/language.ts:106-139 | Before loading, lookup by name finds nothing, the prefix searches yield nothing and every name has 0 overloads. |
| Language.SeekByNamePriority | src/language/language.ts:106-126 | Symbol (category `''`), else keyword, else message, else global variable (category `task`, summary `Global variable number n.`, signature the name); nothing exactly when none of the four applies. |
| Language.SeekByNameSkipsFalsy | src/language/language.ts:108-125 | A global variable numbered 0, with no keyword, message or described symbol of that name, is not reported. |
| Language.PrefixSearchesYieldMatchingEntries | src/language/language.ts:185-222 | `findSymbols`, `findKeywords`, `findMessages` and `findGlobalVariables` each yield a result for exactly the entries whose key starts with the prefix. |
| Language.FindDefinitionsYieldsOverloads | src/language/language.ts:224-237 | `findDefinitions` yields every overload of every group whose name starts with the prefix, and nothing else. |
| Language.SeekByPrefixOrder | src/language/language.ts:131-139 | Keywords come first, then messages, then global variables, then definitions; no symbol result is ever among them. |
| Language.FindDefinitionKeepsOverloads | src/language/language.ts:164-172 | Storing the filled group back changes no name's number of overloads. |

## Left out

- Loading is not part of this model: `Language.load`, `loadTable`, `Modules.load`, `loadModules`, `loadModule` and `parseFromJson`. These are file I/O, promises and error pop-ups. The tables are taken as loading left them, and the module list is a parameter.
- `provideHover`, `makeHover` and `renameProvider.ts` are not part of this model. They are editor glue on `vscode` types.
- `Language.doDiagnostics` is left out. It delegates to a checker that is not part of this model.
- `getInstance` and `release` are left out. Singleton management has no bearing on the results.
- The attributes NPC callback is left out. It registers a closure with the parser.
- The quest parser's helpers are function-typed parameters: `getStaticMessage`, `getMessageIDFromLine` together with `Number(...)`, `MessageBlock.isInside` and `wordRange`. The static-message alias table is a map parameter. Their own behaviour is not modelled.
- `Number(idOrAlias)`, `makeRegexFromSignature`, `RegExp.test` and `prettySignature` are parameters. So are `BooleanExpression.match` and `makeResult`.
  - JavaScript regex semantics are modelled only for the macro pattern.
  - The `RegExp` built from a definition's `match` is a value. A syntax error in it, which throws in the original, is not modelled.
- `iterateAll`, the helper that chains the four searches of `seekByPrefix`, is not part of this model. It is taken to yield its arguments one after another.
- `Types.Place`, `Person`, `Item`, `Foe` and `Clock` are defined outside the core. They are taken to be the strings `"Place"`, `"Person"`, `"Item"`, `"Foe"` and `"Clock"`.
- Object identity is not modelled: `Message`, `Definition` and action objects are values.
  - `ParseMessageLine` pushes onto the last message's `textBlock`. Aliases of that array outside `Qrc` would see the change; the model does not.
  - `FindDefinition` writes the filled definitions of the group back into the map once. The original mutates each object inside the loop. Nothing observes the group during the loop, so the results agree.
- `ScanMacros` collects a line's macros in a local sequence that `ParseMessageLine` then appends to `macros`. The original pushes onto `macros` inside the loop. The resulting state is the same.
- JavaScript numbers are integers here. Non-integral ids and `NaN` ids are excluded: `toNumber` returns an integer or nothing. `String(n)` is modelled for integers only.
- `Language.Language.SeekByName`: the function has no contract of its own. `Language.SeekByNamePriority` and `Language.SeekByNameSkipsFalsy` state its behaviour.
- The values of the keywords, messages and definitions tables are assumed to be objects or arrays, so they are truthy. The values of the symbols table are strings and those of the global variables table numbers; their falsy values `""` and `0` are modelled. `Object.keys` order is the order of the given entry sequence.
- Language.Language.FindSymbols: its own contract states only emptiness before loading and the category; which entries it yields is stated by `Language.PrefixSearchesYieldMatchingEntries`.
- Language.Language.FindKeywords: its own contract states only emptiness before loading and the category; which entries it yields is stated by `Language.PrefixSearchesYieldMatchingEntries`.
- Language.Language.FindMessages: its own contract states only emptiness before loading and the category; which entries it yields is stated by `Language.PrefixSearchesYieldMatchingEntries`.
- Language.Language.FindGlobalVariables: its own contract states only emptiness before loading and the category; which entries it yields is stated by `Language.PrefixSearchesYieldMatchingEntries`.
- Language.Language.FindDefinitions: its own contract states only emptiness before loading and the category; which overloads it yields is stated by `Language.FindDefinitionsYieldsOverloads`.
- Text is a sequence of Unicode code points (Dafny `char`), while JavaScript indexes strings by UTF-16 code units. A character outside the Basic Multilingual Plane (an emoji, say) is one position here and two in JavaScript.
- Qrc.ScanMacros: macro columns and lengths are counted in code points. They agree with `result.index` and `result[0].length` only on lines with no character outside the Basic Multilingual Plane; after each such character the original's columns are one greater.
- Qrc.MacrosAreMatches: the ranges it describes are in code points. The same restriction as for `Qrc.ScanMacros` applies.
- HoverProvider.FormatSymbol: `length - 1` counts code points. On a symbol whose last character lies outside the Basic Multilingual Plane the model drops that whole character; the original keeps its high surrogate.
- JavaScript numbers are doubles; the model's ids and global-variable numbers are unbounded integers. An id is assumed to have magnitude below 2^53, where `id++` and `Number(...)` are exact, and below 1e21, where `String(n)` is plain digits.
- Common.IntToStringInjective: it is about the model's decimal text. It matches `String(id)` only for magnitudes below 1e21. Above 2^53, header ids with different digits can also collapse to the same number in the original, which the model does not see.
- Qrc.Qrc.GetAvailableId: terminates as stated only while ids stay below 2^53. From 2^53 on `id++` leaves the id unchanged, so the original never returns once it reaches a used id of 9007199254740992.
