/**
 * The QRC block of a quest: the text messages that the QBN block refers to.
 * Lines are fed to `Parse` one at a time; a message header opens a message
 * block, the lines inside it become that message's text, and the `%macro`
 * tokens in those lines are recorded with their exact columns.
 */
module Qrc {
  import opened Common

  datatype Position = Position(line: int, character: int)

  /** An editor range from `start` to `end`, `end` excluded. */
  datatype Range = Range(start: Position, end: Position)

  datatype TextLine = TextLine(lineNumber: nat, text: string)

  datatype Message = Message(id: int, range: Range, alias: Option<string>, textBlock: seq<TextLine>)

  /** One occurrence of a `%token` inside message text. */
  datatype ContextMacro = ContextMacro(symbol: string, range: Range)

  /** A header that declares both an id and a static alias. */
  datatype StaticMessage = StaticMessage(id: int, name: string)

  /** The extent of a message's text, opened at the header on `firstLine`. */
  datatype MessageBlock = MessageBlock(firstLine: nat)

  /**
   * The line parser's helpers, taken as given: `staticMessage` recognises a
   * static-message header, `messageId` a header that declares only an id
   * (already converted to a number), `isInside` says whether a line number
   * belongs to a message block of the document, and `wordRange` locates a
   * word on a line.
   */
  datatype ParserHelpers = ParserHelpers(
    staticMessage: string -> Option<StaticMessage>,
    messageId: TextLine -> Option<int>,
    isInside: (MessageBlock, nat) -> bool,
    wordRange: (TextLine, string) -> Range)

  // ---------------------------------------------------------------------
  // The macro pattern `/%[a-z0-9]+\b/g`.

  predicate IsMacroChar(c: char)
  {
    ('a' <= c <= 'z') || IsDigit(c)
  }

  /** The class `\w` that decides a word boundary. */
  predicate IsWordChar(c: char)
  {
    IsAsciiLetter(c) || IsDigit(c) || c == '_'
  }

  /**
   * The pattern matches `s[start..start + len]`: a `%`, one or more macro
   * characters, and a word boundary right after them.
   */
  predicate TokenAt(s: string, start: nat, len: nat)
  {
    && start + len <= |s|
    && len >= 2
    && s[start] == '%'
    && (forall k :: start < k < start + len ==> IsMacroChar(s[k]))
    && (start + len == |s| || !IsWordChar(s[start + len]))
  }

  /** The number of macro characters in `s` from position `i` on. */
  function RunLength(s: string, i: nat): (n: nat)
    requires i <= |s|
    ensures i + n <= |s|
    ensures forall k :: i <= k < i + n ==> IsMacroChar(s[k])
    ensures i + n < |s| ==> !IsMacroChar(s[i + n])
    decreases |s| - i
  {
    if i < |s| && IsMacroChar(s[i]) then 1 + RunLength(s, i + 1) else 0
  }

  /** A match at a given position has only one possible length: the greedy one. */
  lemma TokenLengthIsGreedy(s: string, start: nat, len: nat)
    requires TokenAt(s, start, len)
    ensures len == 1 + RunLength(s, start + 1)
  {
  }

  datatype Span = Span(start: nat, len: nat)

  /** `regex.exec(s)` with `lastIndex == from`: the leftmost match at or after `from`. */
  function Exec(s: string, from: nat): (r: Option<Span>)
    requires from <= |s|
    ensures r.Some? ==> from <= r.value.start && 2 <= r.value.len && r.value.start + r.value.len <= |s|
    decreases |s| - from
  {
    if from == |s| then None
    else
      var n := RunLength(s, from + 1);
      if s[from] == '%' && n > 0 && (from + 1 + n == |s| || !IsWordChar(s[from + 1 + n])) then
        Some(Span(from, 1 + n))
      else
        Exec(s, from + 1)
  }

  /** What `Exec` finds is a match, and there is none between `from` and it. */
  lemma {:induction false} ExecFindsLeftmost(s: string, from: nat)
    requires from <= |s|
    ensures var r := Exec(s, from);
            r.Some? ==> TokenAt(s, r.value.start, r.value.len)
    ensures Exec(s, from).Some? ==> forall i, n :: from <= i < Exec(s, from).value.start ==> !TokenAt(s, i, n)
    ensures Exec(s, from).None? ==> forall i, n :: from <= i ==> !TokenAt(s, i, n)
    decreases |s| - from
  {
    if from < |s| {
      var n := RunLength(s, from + 1);
      if !(s[from] == '%' && n > 0 && (from + 1 + n == |s| || !IsWordChar(s[from + 1 + n]))) {
        forall len | TokenAt(s, from, len) ensures false {
          TokenLengthIsGreedy(s, from, len);
        }
        ExecFindsLeftmost(s, from + 1);
      }
    }
  }

  function MacroOf(line: TextLine, sp: Span): ContextMacro
    requires sp.start + sp.len <= |line.text|
  {
    ContextMacro(
      line.text[sp.start..sp.start + sp.len],
      Range(Position(line.lineNumber, sp.start), Position(line.lineNumber, sp.start + sp.len)))
  }

  /** The macros that the `exec` loop records for `line`, starting at column `from`. */
  function MacrosFrom(line: TextLine, from: nat): seq<ContextMacro>
    requires from <= |line.text|
    decreases |line.text| - from
  {
    match Exec(line.text, from)
    case None => []
    case Some(sp) => [MacroOf(line, sp)] + MacrosFrom(line, sp.start + sp.len)
  }

  /**
   * `m` is an occurrence on `line`: its range lies on the line's number and
   * spans `[a, b)`, the pattern matches there, and the text over the span is
   * its symbol.
   */
  predicate MacroAt(m: ContextMacro, line: TextLine)
  {
    var a, b := m.range.start.character, m.range.end.character;
    && m.range.start.line == line.lineNumber
    && m.range.end.line == line.lineNumber
    && 0 <= a <= b
    && TokenAt(line.text, a, b - a)
    && m.symbol == line.text[a..b]
  }

  /** The first macro from `from` on, and the rest after its end. */
  lemma MacrosFromStep(line: TextLine, from: nat)
    requires from <= |line.text| && Exec(line.text, from).Some?
    ensures var sp := Exec(line.text, from).value;
            MacrosFrom(line, from) == [MacroOf(line, sp)] + MacrosFrom(line, sp.start + sp.len)
  {
  }

  /** The element after the head of `[a] + rest` is an element of `rest`. */
  lemma ConsIndex<T>(a: T, rest: seq<T>, k: nat)
    requires 0 < k <= |rest|
    ensures ([a] + rest)[k] == rest[k - 1]
  {
  }

  lemma MacroOfIsMatch(line: TextLine, sp: Span)
    requires TokenAt(line.text, sp.start, sp.len)
    ensures MacroAt(MacroOf(line, sp), line)
  {
  }

  /** Every recorded macro is a real match on its line, at column `from` or later. */
  lemma {:induction false} MacrosAreMatches(line: TextLine, from: nat)
    requires from <= |line.text|
    ensures forall k :: 0 <= k < |MacrosFrom(line, from)| ==>
              MacroAt(MacrosFrom(line, from)[k], line) && from <= MacrosFrom(line, from)[k].range.start.character
    decreases |line.text| - from
  {
    ExecFindsLeftmost(line.text, from);
    match Exec(line.text, from)
    case None =>
    case Some(sp) =>
      var next := sp.start + sp.len;
      MacrosAreMatches(line, next);
      MacroOfIsMatch(line, sp);
      MacrosFromStep(line, from);
      var rest := MacrosFrom(line, next);
      var ms := MacrosFrom(line, from);
      forall k | 0 <= k < |ms| ensures MacroAt(ms[k], line) && from <= ms[k].range.start.character {
        if k > 0 {
          ConsIndex(MacroOf(line, sp), rest, k);
        }
      }
  }

  /** The macros of one line come left to right and do not overlap. */
  lemma {:induction false} MacrosAreOrdered(line: TextLine, from: nat)
    requires from <= |line.text|
    ensures forall j, k :: 0 <= j < k < |MacrosFrom(line, from)| ==>
              MacrosFrom(line, from)[j].range.end.character <= MacrosFrom(line, from)[k].range.start.character
    decreases |line.text| - from
  {
    match Exec(line.text, from)
    case None =>
    case Some(sp) =>
      var next := sp.start + sp.len;
      var rest := MacrosFrom(line, next);
      var ms := [MacroOf(line, sp)] + rest;
      MacrosFromStep(line, from);
      MacrosAreOrdered(line, next);
      MacrosAreMatches(line, next);
      forall j, k | 0 <= j < k < |ms|
        ensures ms[j].range.end.character <= ms[k].range.start.character
      {
        ConsIndex(MacroOf(line, sp), rest, k);
        if j > 0 {
          ConsIndex(MacroOf(line, sp), rest, j);
        }
      }
  }

  /** No match is missed: every position where the pattern matches starts a recorded macro. */
  lemma {:induction false} MacrosAreComplete(line: TextLine, from: nat, i: nat, n: nat)
    requires from <= i && TokenAt(line.text, i, n)
    ensures exists k :: 0 <= k < |MacrosFrom(line, from)| && MacrosFrom(line, from)[k].range.start.character == i
    decreases |line.text| - from
  {
    var r := Exec(line.text, from);
    ExecFindsLeftmost(line.text, from);
    if r.None? {
      assert false;
    }
    var sp := r.value;
    var next := sp.start + sp.len;
    var rest := MacrosFrom(line, next);
    assert MacrosFrom(line, from) == [MacroOf(line, sp)] + rest;
    if i == sp.start {
      assert MacrosFrom(line, from)[0].range.start.character == i;
    } else {
      assert next <= i;
      MacrosAreComplete(line, next, i, n);
      var k :| 0 <= k < |rest| && rest[k].range.start.character == i;
      ConsIndex(MacroOf(line, sp), rest, k + 1);
    }
  }

  /** `found` holds the macros before column `lastIndex`: with those after it, all of them. */
  ghost predicate Scanned(line: TextLine, found: seq<ContextMacro>, lastIndex: nat)
    requires lastIndex <= |line.text|
  {
    found + MacrosFrom(line, lastIndex) == MacrosFrom(line, 0)
  }

  /** One round of the `exec` loop keeps `Scanned`. */
  lemma ScanStep(line: TextLine, found: seq<ContextMacro>, lastIndex: nat, sp: Span)
    requires lastIndex <= |line.text| && Exec(line.text, lastIndex) == Some(sp)
    requires Scanned(line, found, lastIndex)
    ensures Scanned(line, found + [MacroOf(line, sp)], sp.start + sp.len)
  {
    var m := MacroOf(line, sp);
    var rest := MacrosFrom(line, sp.start + sp.len);
    MacrosFromStep(line, lastIndex);
    assert found + ([m] + rest) == (found + [m]) + rest;
  }

  /** The `regex.exec` loop over one line: every macro match, left to right. */
  method ScanMacros(line: TextLine) returns (found: seq<ContextMacro>)
    ensures found == MacrosFrom(line, 0)
  {
    found := [];
    var lastIndex := 0;
    var result := Exec(line.text, lastIndex);
    while result.Some?
      invariant lastIndex <= |line.text|
      invariant result == Exec(line.text, lastIndex)
      invariant Scanned(line, found, lastIndex)
      decreases |line.text| - lastIndex
    {
      var sp := result.value;
      var m := MacroOf(line, sp);
      ScanStep(line, found, lastIndex, sp);
      found := found + [m];
      lastIndex := sp.start + sp.len;
      result := Exec(line.text, lastIndex);
    }
  }

  // ---------------------------------------------------------------------
  // Messages.

  /** All message text, message after message: what `iterateMessageLines` yields. */
  function Flatten(ms: seq<Message>): seq<TextLine>
    decreases |ms|
  {
    if ms == [] then [] else ms[0].textBlock + Flatten(ms[1..])
  }

  lemma {:induction false} FlattenAppend(ms: seq<Message>, m: Message)
    ensures Flatten(ms + [m]) == Flatten(ms) + m.textBlock
    decreases |ms|
  {
    if ms == [] {
      assert [m][1..] == [];
    } else {
      assert (ms + [m])[1..] == ms[1..] + [m];
      FlattenAppend(ms[1..], m);
    }
  }

  /** A line is message text exactly when some message's block holds it. */
  lemma {:induction false} FlattenMembers(ms: seq<Message>, l: TextLine)
    ensures l in Flatten(ms) <==> exists i :: 0 <= i < |ms| && l in ms[i].textBlock
    decreases |ms|
  {
    if ms != [] {
      FlattenMembers(ms[1..], l);
      if l in Flatten(ms[1..]) {
        var i :| 0 <= i < |ms[1..]| && l in ms[1..][i].textBlock;
        assert l in ms[i + 1].textBlock;
      }
      if exists i :: 0 <= i < |ms| && l in ms[i].textBlock {
        var i :| 0 <= i < |ms| && l in ms[i].textBlock;
        if i > 0 {
          assert l in ms[1..][i - 1].textBlock;
        }
      }
    }
  }

  /** Appending a line to the last message appends it to the message text. */
  lemma ExtendLastMessage(ms: seq<Message>, line: TextLine)
    requires ms != []
    ensures var last := ms[|ms| - 1];
            Flatten(ms[|ms| - 1 := last.(textBlock := last.textBlock + [line])]) == Flatten(ms) + [line]
  {
    var n := |ms| - 1;
    var last := ms[n];
    assert ms == ms[..n] + [last];
    assert ms[n := last.(textBlock := last.textBlock + [line])] == ms[..n] + [last.(textBlock := last.textBlock + [line])];
    FlattenAppend(ms[..n], last);
    FlattenAppend(ms[..n], last.(textBlock := last.textBlock + [line]));
  }

  /** Some message carries `id`. */
  ghost predicate Used(ms: seq<Message>, id: int)
  {
    exists i :: 0 <= i < |ms| && ms[i].id == id
  }

  /** The position of the first message, in declaration order, whose id is `id`. */
  function FirstIndex(ms: seq<Message>, id: int): (r: Option<nat>)
    ensures r.Some? ==> r.value < |ms| && ms[r.value].id == id
    ensures r.Some? ==> forall j :: 0 <= j < r.value ==> ms[j].id != id
    ensures r.None? ==> forall j :: 0 <= j < |ms| ==> ms[j].id != id
    decreases |ms|
  {
    if ms == [] then None
    else if ms[0].id == id then Some(0)
    else match FirstIndex(ms[1..], id)
      case None => None
      case Some(k) => Some(k + 1)
  }

  /** `messages.find(x => x.id === id)` */
  function FindById(ms: seq<Message>, id: int): (r: Option<Message>)
    ensures r.Some? <==> Used(ms, id)
  {
    match FirstIndex(ms, id)
    case None => None
    case Some(i) => Some(ms[i])
  }

  /** A message registered later never hides an earlier one with the same id. */
  lemma {:induction false} FirstIndexKeepsEarliest(ms: seq<Message>, m: Message, id: int)
    requires FirstIndex(ms, id).Some?
    ensures FirstIndex(ms + [m], id) == FirstIndex(ms, id)
    decreases |ms|
  {
    if ms[0].id != id {
      assert (ms + [m])[1..] == ms[1..] + [m];
      FirstIndexKeepsEarliest(ms[1..], m, id);
    }
  }

  /** An integer above every message id. */
  function IdBound(ms: seq<Message>): (b: int)
    ensures forall i :: 0 <= i < |ms| ==> ms[i].id < b
    decreases |ms|
  {
    if ms == [] then 0
    else
      var rest := IdBound(ms[1..]);
      if ms[0].id + 1 > rest then ms[0].id + 1 else rest
  }

  /** How a key names a message: as a number, or else through the alias table. */
  function ResolveId(idOrAlias: string, toNumber: string -> Option<int>, aliases: map<string, int>): Option<int>
  {
    match toNumber(idOrAlias)
    case Some(n) => Some(n)
    case None => if idOrAlias in aliases then Some(aliases[idOrAlias]) else None
  }

  /** What a header registers: the id, the range of the id's text on the line, the alias, no text yet. */
  function NewMessage(id: int, line: TextLine, alias: Option<string>, h: ParserHelpers): Message
  {
    Message(id, h.wordRange(line, IntToString(id)), alias, [])
  }

  /** The four ways a line can go, decided in this order. */
  datatype LineKind = Continuation | StaticHeader(header: StaticMessage) | IdHeader(id: int) | Unrecognised

  /** `m` is an occurrence on one of `lines`. */
  ghost predicate OnSomeLine(m: ContextMacro, lines: seq<TextLine>)
  {
    exists l :: l in lines && MacroAt(m, l)
  }

  class Qrc {
    var messages: seq<Message>
    var macros: seq<ContextMacro>
    var failedParse: seq<TextLine>
    var messageBlock: Option<MessageBlock>

    /**
     * A message block is open only after some message was registered, and
     * every recorded macro is a match on a line of message text.
     */
    ghost predicate Valid()
      reads this
    {
      && (messageBlock.Some? ==> messages != [])
      && forall i :: 0 <= i < |macros| ==> OnSomeLine(macros[i], Flatten(messages))
    }

    constructor ()
      ensures Valid()
      ensures messages == [] && macros == [] && failedParse == [] && messageBlock == None
    {
      messages, macros, failedParse, messageBlock := [], [], [], None;
    }

    /** `iterateMessageLines`: the text of every message in declaration order. */
    function MessageLines(): (lines: seq<TextLine>)
      reads this
      ensures forall l :: l in lines <==> exists i :: 0 <= i < |messages| && l in messages[i].textBlock
    {
      assert forall l :: l in Flatten(messages) <==> exists i :: 0 <= i < |messages| && l in messages[i].textBlock by {
        forall l ensures l in Flatten(messages) <==> exists i :: 0 <= i < |messages| && l in messages[i].textBlock {
          FlattenMembers(messages, l);
        }
      }
      Flatten(messages)
    }

    /** Which of the four paths `Parse` takes for `line` in the current state. */
    function KindOf(line: TextLine, h: ParserHelpers): LineKind
      reads this
    {
      if |messages| > 0 && messageBlock.Some? && h.isInside(messageBlock.value, line.lineNumber) then Continuation
      else if h.staticMessage(line.text).Some? then StaticHeader(h.staticMessage(line.text).value)
      else if h.messageId(line).Some? then IdHeader(h.messageId(line).value)
      else Unrecognised
    }

    /** Parses one line of the QRC block. */
    method Parse(line: TextLine, h: ParserHelpers)
      requires Valid()
      modifies this
      ensures Valid()
      ensures old(KindOf(line, h)).Continuation? ==>
        && |messages| == |old(messages)| > 0
        && messages == old(messages)[|messages| - 1 := old(messages)[|messages| - 1].(textBlock := old(messages)[|messages| - 1].textBlock + [line])]
        && MessageLines() == old(MessageLines()) + [line]
        && macros == old(macros) + MacrosFrom(line, 0)
        && messageBlock == old(messageBlock) && failedParse == old(failedParse)
      ensures old(KindOf(line, h)).StaticHeader? ==>
        var header := old(KindOf(line, h)).header;
        && messages == old(messages) + [NewMessage(header.id, line, Some(header.name), h)]
        && messageBlock == Some(MessageBlock(line.lineNumber))
        && macros == old(macros) && failedParse == old(failedParse)
      ensures old(KindOf(line, h)).IdHeader? ==>
        && messages == old(messages) + [NewMessage(old(KindOf(line, h)).id, line, None, h)]
        && messageBlock == Some(MessageBlock(line.lineNumber))
        && macros == old(macros) && failedParse == old(failedParse)
      ensures old(KindOf(line, h)).Unrecognised? ==>
        && messageBlock == None
        && failedParse == old(failedParse) + [line]
        && messages == old(messages) && macros == old(macros)
    {
      // A line inside the open block is text of the last message.
      if |messages| > 0 && messageBlock.Some? && h.isInside(messageBlock.value, line.lineNumber) {
        ParseMessageLine(line);
        return;
      }

      // A header with an id and an alias opens a new block.
      var staticMessage := h.staticMessage(line.text);
      if staticMessage.Some? {
        RegisterMessage(staticMessage.value.id, line, Some(staticMessage.value.name), h);
        messageBlock := Some(MessageBlock(line.lineNumber));
        return;
      }

      // So does a header with only an id.
      var messageId := h.messageId(line);
      if messageId.Some? {
        RegisterMessage(messageId.value, line, None, h);
        messageBlock := Some(MessageBlock(line.lineNumber));
        return;
      }

      // Anything else closes the block and is recorded as not understood.
      if messageBlock.Some? {
        messageBlock := None;
      }
      failedParse := failedParse + [line];
    }

    /** `messages.find` by the id that `idOrAlias` resolves to; ids 0 and unresolved keys give nothing. */
    function GetMessage(idOrAlias: string, toNumber: string -> Option<int>, aliases: map<string, int>): (r: Option<Message>)
      reads this
      ensures var id := ResolveId(idOrAlias, toNumber, aliases);
              r.Some? <==> id.Some? && id.value != 0 && Used(messages, id.value)
      ensures r.Some? ==>
                exists i :: 0 <= i < |messages| && r.value == messages[i]
                            && Some(messages[i].id) == ResolveId(idOrAlias, toNumber, aliases)
                            && forall j :: 0 <= j < i ==> messages[j].id != messages[i].id
    {
      var id := ResolveId(idOrAlias, toNumber, aliases);
      if id.Some? && id.value != 0 then FindById(messages, id.value) else None
    }

    /** The smallest id, from `current` on, that no message uses. */
    method GetAvailableId(current: int) returns (id: int)
      ensures current <= id
      ensures !Used(messages, id)
      ensures forall k :: current <= k < id ==> Used(messages, k)
    {
      id := current;
      ghost var bound := IdBound(messages);
      while FindById(messages, id).Some?
        invariant current <= id <= if current < bound then bound else current
        invariant forall k :: current <= k < id ==> Used(messages, k)
        decreases (if current < bound then bound else current) - id
      {
        id := id + 1;
      }
    }

    method RegisterMessage(id: int, line: TextLine, alias: Option<string>, h: ParserHelpers)
      requires Valid()
      modifies this
      ensures messages == old(messages) + [NewMessage(id, line, alias, h)]
      ensures Flatten(messages) == Flatten(old(messages))
      ensures macros == old(macros) && failedParse == old(failedParse) && messageBlock == old(messageBlock)
      ensures Valid()
    {
      FlattenAppend(messages, NewMessage(id, line, alias, h));
      messages := messages + [NewMessage(id, line, alias, h)];
    }

    /** Appends `line` to the last message and records the macros on it. */
    method ParseMessageLine(line: TextLine)
      requires Valid() && messages != []
      modifies this
      ensures Valid()
      ensures |messages| == |old(messages)|
      ensures messages == old(messages)[|messages| - 1 := old(messages)[|messages| - 1].(textBlock := old(messages)[|messages| - 1].textBlock + [line])]
      ensures Flatten(messages) == Flatten(old(messages)) + [line]
      ensures macros == old(macros) + MacrosFrom(line, 0)
      ensures messageBlock == old(messageBlock) && failedParse == old(failedParse)
    {
      var last := |messages| - 1;
      ExtendLastMessage(messages, line);
      messages := messages[last := messages[last].(textBlock := messages[last].textBlock + [line])];

      var found := ScanMacros(line);
      macros := macros + found;

      assert macros == old(macros) + MacrosFrom(line, 0);
      MacrosAreMatches(line, 0);
      forall i | 0 <= i < |macros| ensures OnSomeLine(macros[i], Flatten(messages)) {
        if i < |old(macros)| {
          assert macros[i] == old(macros)[i];
          assert OnSomeLine(old(macros)[i], Flatten(old(messages)));
          var l :| l in Flatten(old(messages)) && MacroAt(macros[i], l);
          assert l in Flatten(messages);
        } else {
          assert macros[i] == MacrosFrom(line, 0)[i - |old(macros)|];
          assert line in Flatten(messages);
        }
      }
    }
  }
}
