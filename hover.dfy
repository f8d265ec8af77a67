/**
 * The hover text for a quest symbol: a derived form of a symbol is the
 * symbol's name wrapped in `_` or `=` markers, and the number of leading
 * markers together with the symbol's type says what the derived form
 * stands for.
 */
module HoverProvider {
  import opened Common

  // The symbol types a description exists for.
  const Place: string := "Place"
  const Person: string := "Person"
  const Item: string := "Item"
  const Foe: string := "Foe"
  const Clock: string := "Clock"

  /**
   * A symbol name in backticks, cut from its derived form: the characters
   * after `leftIndex` (the last leading marker) and before the final one.
   */
  function FormatSymbol(derived: string, leftIndex: int): (r: string)
    ensures 0 <= leftIndex + 1 <= |derived| - 1 ==> r == "`" + derived[leftIndex + 1..|derived| - 1] + "`"
    ensures |r| >= 2 && r[0] == '`' && r[|r| - 1] == '`'
  {
    "`" + JsSubstring(derived, leftIndex + 1, |derived| - 1) + "`"
  }

  /** The text for a combination of prefix and type that has no description. */
  function Undefined(symbolType: string): string
  {
    "undefined value for the type `" + symbolType + "`."
  }

  /**
   * A description for `symbol` according to its prefix and `symbolType`;
   * `symbolName` stands for the parser's `getSymbolName`.
   */
  function GetSymbolDescription(symbol: string, symbolType: string, symbolName: string -> string): string
  {
    if |symbol| > 0 && symbol[0] == '_' then
      if |symbol| > 1 && symbol[1] == '_' then
        if |symbol| > 2 && symbol[2] == '_' then
          if |symbol| > 3 && symbol[3] == '_' then
            if symbolType == Place then
              "the name of the province where " + FormatSymbol(symbol, 3) + " can be found."
            else Undefined(symbolType)
          else
            if symbolType == Place then
              "the dungeon name of " + FormatSymbol(symbol, 2) + "."
            else if symbolType == Person then
              "the town name where " + FormatSymbol(symbol, 2) + " can be found."
            else Undefined(symbolType)
        else
          if symbolType == Place then
            "the town where the shop " + FormatSymbol(symbol, 1) + " can be found."
          else if symbolType == Person then
            "the name of the house/shop in the town where " + FormatSymbol(symbol, 1) + " can be found."
          else Undefined(symbolType)
      else
        if symbolType == Place then
          "the name of the shop " + FormatSymbol(symbol, 0) + "."
        else if symbolType == Item || symbolType == Person || symbolType == Foe then
          "the name of " + FormatSymbol(symbol, 0) + "."
        else if symbolType == Clock then
          "base definition of " + FormatSymbol(symbol, 0) + " (use `=" + symbolName(symbol) + "_` to get the clock time)."
        else Undefined(symbolType)
    else if |symbol| > 0 && symbol[0] == '=' then
      if |symbol| > 1 && symbol[1] == '=' then
        if symbolType == Person || symbolType == Foe then
          "The faction association of " + FormatSymbol(symbol, 1) + "."
        else Undefined(symbolType)
      else
        if symbolType == Person then
          "character class of " + FormatSymbol(symbol, 0)
        else if symbolType == Foe then
          FormatSymbol(symbol, 0) + "'s name."
        else if symbolType == Clock then
          "the number of days " + FormatSymbol(symbol, 0) + " will be active."
        else Undefined(symbolType)
    else Undefined(symbolType)
  }

  // ---------------------------------------------------------------------
  // A reference statement of the same rules, by marker count.

  /** The number of copies of `c` that `s` starts with. */
  function Leading(s: string, c: char): (n: nat)
    ensures n <= |s|
    ensures forall i :: 0 <= i < n ==> s[i] == c
    ensures n < |s| ==> s[n] != c
    decreases |s|
  {
    if |s| > 0 && s[0] == c then 1 + Leading(s[1..], c) else 0
  }

  function Min(a: nat, b: nat): nat
  {
    if a < b then a else b
  }

  /** What a derived form with `depth` leading `_` (four or more count as four) means. */
  function UnderscoreMeaning(depth: nat, symbolType: string, name: string, baseName: string): Option<string>
  {
    match depth
    case 1 =>
      if symbolType == Place then Some("the name of the shop " + name + ".")
      else if symbolType in {Item, Person, Foe} then Some("the name of " + name + ".")
      else if symbolType == Clock then Some("base definition of " + name + " (use `=" + baseName + "_` to get the clock time).")
      else None
    case 2 =>
      if symbolType == Place then Some("the town where the shop " + name + " can be found.")
      else if symbolType == Person then Some("the name of the house/shop in the town where " + name + " can be found.")
      else None
    case 3 =>
      if symbolType == Place then Some("the dungeon name of " + name + ".")
      else if symbolType == Person then Some("the town name where " + name + " can be found.")
      else None
    case 4 =>
      if symbolType == Place then Some("the name of the province where " + name + " can be found.") else None
    case _ => None
  }

  /** What a derived form with `depth` leading `=` (two or more count as two) means. */
  function EqualsMeaning(depth: nat, symbolType: string, name: string): Option<string>
  {
    match depth
    case 1 =>
      if symbolType == Person then Some("character class of " + name)
      else if symbolType == Foe then Some(name + "'s name.")
      else if symbolType == Clock then Some("the number of days " + name + " will be active.")
      else None
    case 2 =>
      if symbolType in {Person, Foe} then Some("The faction association of " + name + ".") else None
    case _ => None
  }

  /**
   * The whole rule set as a table: the marker count picks the row, the type
   * the column, and the name is always cut after the last counted marker.
   */
  function DescriptionTable(symbol: string, symbolType: string, symbolName: string -> string): Option<string>
  {
    var u := Min(Leading(symbol, '_'), 4);
    var e := Min(Leading(symbol, '='), 2);
    if u > 0 then UnderscoreMeaning(u, symbolType, FormatSymbol(symbol, u - 1), symbolName(symbol))
    else if e > 0 then EqualsMeaning(e, symbolType, FormatSymbol(symbol, e - 1))
    else None
  }

  /** The text for a symbol: its table entry, or the undefined-value text. */
  function TableText(symbol: string, symbolType: string, symbolName: string -> string): string
  {
    match DescriptionTable(symbol, symbolType, symbolName)
    case Some(d) => d
    case None => Undefined(symbolType)
  }

  /** The nested conditions of `GetSymbolDescription` implement the table. */
  lemma DescriptionFollowsTable(symbol: string, symbolType: string, symbolName: string -> string)
    ensures GetSymbolDescription(symbol, symbolType, symbolName) == TableText(symbol, symbolType, symbolName)
  {
    if |symbol| > 0 && symbol[0] == '_' {
      if |symbol| > 3 && symbol[1] == '_' && symbol[2] == '_' && symbol[3] == '_' {
        ProvinceRowFollowsTable(symbol, symbolType, symbolName);
      } else if |symbol| > 2 && symbol[1] == '_' && symbol[2] == '_' {
        DungeonRowFollowsTable(symbol, symbolType, symbolName);
      } else if |symbol| > 1 && symbol[1] == '_' {
        TownRowFollowsTable(symbol, symbolType, symbolName);
      } else {
        ShopRowFollowsTable(symbol, symbolType, symbolName);
      }
    } else if |symbol| > 0 && symbol[0] == '=' {
      EqualsRowsFollowTable(symbol, symbolType, symbolName);
    } else {
      assert Leading(symbol, '_') == 0 && Leading(symbol, '=') == 0;
    }
  }

  // One lemma per number of leading underscores.

  lemma ShopRowFollowsTable(symbol: string, symbolType: string, symbolName: string -> string)
    requires |symbol| > 0 && symbol[0] == '_' && !(|symbol| > 1 && symbol[1] == '_')
    ensures GetSymbolDescription(symbol, symbolType, symbolName) == TableText(symbol, symbolType, symbolName)
  {
    assert Leading(symbol, '_') == 1;
    var name := FormatSymbol(symbol, 0);
    if symbolType == Place {
      assert TableText(symbol, symbolType, symbolName) == "the name of the shop " + name + ".";
    } else if symbolType == Item || symbolType == Person || symbolType == Foe {
      assert TableText(symbol, symbolType, symbolName) == "the name of " + name + ".";
    } else if symbolType == Clock {
      assert TableText(symbol, symbolType, symbolName) ==
             "base definition of " + name + " (use `=" + symbolName(symbol) + "_` to get the clock time).";
    } else {
      assert TableText(symbol, symbolType, symbolName) == Undefined(symbolType);
    }
  }
  lemma TownRowFollowsTable(symbol: string, symbolType: string, symbolName: string -> string)
    requires |symbol| > 1 && symbol[0] == '_' && symbol[1] == '_' && !(|symbol| > 2 && symbol[2] == '_')
    ensures GetSymbolDescription(symbol, symbolType, symbolName) == TableText(symbol, symbolType, symbolName)
  {
    assert Leading(symbol, '_') == 2;
  }
  lemma DungeonRowFollowsTable(symbol: string, symbolType: string, symbolName: string -> string)
    requires |symbol| > 2 && symbol[0] == '_' && symbol[1] == '_' && symbol[2] == '_' && !(|symbol| > 3 && symbol[3] == '_')
    ensures GetSymbolDescription(symbol, symbolType, symbolName) == TableText(symbol, symbolType, symbolName)
  {
    assert Leading(symbol, '_') == 3;
  }
  lemma ProvinceRowFollowsTable(symbol: string, symbolType: string, symbolName: string -> string)
    requires |symbol| > 3 && symbol[0] == '_' && symbol[1] == '_' && symbol[2] == '_' && symbol[3] == '_'
    ensures GetSymbolDescription(symbol, symbolType, symbolName) == TableText(symbol, symbolType, symbolName)
  {
    assert Leading(symbol, '_') >= 4;
  }

  lemma EqualsRowsFollowTable(symbol: string, symbolType: string, symbolName: string -> string)
    requires |symbol| > 0 && symbol[0] == '='
    ensures GetSymbolDescription(symbol, symbolType, symbolName) == TableText(symbol, symbolType, symbolName)
  {
    var e := Leading(symbol, '=');
    assert Leading(symbol, '_') == 0;
    if |symbol| > 1 && symbol[1] == '=' {
      assert e >= 2;
    } else {
      assert e == 1;
    }
  }

  /** A symbol that starts with neither marker never has a description. */
  lemma UnmarkedSymbolIsUndefined(symbol: string, symbolType: string, symbolName: string -> string)
    requires symbol == [] || (symbol[0] != '_' && symbol[0] != '=')
    ensures GetSymbolDescription(symbol, symbolType, symbolName) == Undefined(symbolType)
  {
  }

  function Repeat(c: char, n: nat): (r: string)
    ensures |r| == n && forall i :: 0 <= i < n ==> r[i] == c
  {
    seq(n, _ => c)
  }

  /**
   * Cutting a derived form `markers + name + last` after its last marker
   * gives back exactly `name`.
   */
  lemma FormatSymbolRecoversName(markers: nat, c: char, name: string, last: char)
    requires markers >= 1
    ensures FormatSymbol(Repeat(c, markers) + name + [last], markers - 1) == "`" + name + "`"
  {
    var derived := Repeat(c, markers) + name + [last];
    assert derived[markers..|derived| - 1] == name;
  }

  /** `___name_` of a Place is the dungeon it names, with `name` cut out. */
  lemma DungeonOfPlace(name: string, symbolName: string -> string)
    requires name != [] && name[0] != '_'
    ensures GetSymbolDescription("___" + name + "_", Place, symbolName) == "the dungeon name of `" + name + "`."
  {
    var symbol := "___" + name + "_";
    assert symbol[..3] == "___";
    assert symbol == Repeat('_', 3) + name + ['_'];
    FormatSymbolRecoversName(3, '_', name, '_');
  }
}
