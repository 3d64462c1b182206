/**
 The English renderer of notification messages: an ICU source with quoting and
 named placeholders, and the grouping of whole numbers.
 */
module Notify {
  import opened Options
  import opened Decimal
  import opened Sequences

  type Int64 = x: int | -0x8000_0000_0000_0000 <= x < 0x8000_0000_0000_0000

  datatype Arg = Text(text: string) | Count(count: Int64) {
    function English(): string {
      match this
      case Text(text) => text
      case Count(count) => Grouped(count)
    }
  }

  datatype NotifyMessage = NotifyMessage(source: string, args: seq<(string, Arg)>) {
    function WithText(name: string, value: string): NotifyMessage {
      this.(args := args + [(name, Text(value))])
    }

    function WithCount(name: string, value: Int64): NotifyMessage {
      this.(args := args + [(name, Count(value))])
    }

    /** What `english` returns. */
    ghost function Rendered(): string {
      Render(source, args)
    }

    /** Fills the source in, reading it once from left to right. */
    method English() returns (out: string)
      ensures out == Rendered()
    {
      out := "";
      var next := 0;
      while next < |source|
        invariant 0 <= next <= |source|
        invariant out + Render(source[next..], args) == Rendered()
      {
        RenderStep(source[next..], args);
        ghost var before, rest := out, source[next..];
        var piece;
        piece, next := TakePiece(source, next, args);
        Associative(before, piece, Render(source[next..], args));
        out := out + piece;
      }
    }
  }

  /** Reads one construct of the source. */
  method TakePiece(source: string, start: nat, args: seq<(string, Arg)>) returns (piece: string, next: nat)
    requires start < |source|
    ensures start < next <= |source|
    ensures piece == Piece(source[start..], args).0
    ensures source[next..] == source[start..][Piece(source[start..], args).1..]
  {
    var c := source[start];
    next := start + 1;
    DropTwice(source, start, 1);
    if c == '\'' && next < |source| && source[next] == '\'' {
      next := next + 1;
      piece := "'";
      DropTwice(source, start, 2);
    } else if c == '\'' && next < |source| && IsBrace(source[next]) {
      QuotationPiece(source[start..], args);
      piece, next := TakeUntil(source, next, '\'');
    } else if c == '{' {
      PlaceholderPiece(source[start..], args);
      var name;
      name, next := TakeUntil(source, next, '}');
      piece := Filled(args, name);
    } else {
      piece := [c];
    }
  }

  lemma QuotationPiece(s: string, args: seq<(string, Arg)>)
    requires |s| > 1 && s[0] == '\'' && IsBrace(s[1])
    ensures Piece(s, args).0 == Before(s[1..], '\'')
    ensures s[Piece(s, args).1..] == After(s[1..], '\'')
  {
    AfterIsTheRest(s, '\'');
  }

  lemma PlaceholderPiece(s: string, args: seq<(string, Arg)>)
    requires s != "" && s[0] == '{'
    ensures Piece(s, args).0 == Filled(args, Before(s[1..], '}'))
    ensures s[Piece(s, args).1..] == After(s[1..], '}')
  {
    AfterIsTheRest(s, '}');
  }

  /** Reads characters up to and including the first `stop`, and keeps all but it. */
  method TakeUntil(source: string, start: nat, stop: char) returns (taken: string, next: nat)
    requires start <= |source|
    ensures start <= next <= |source|
    ensures taken == Before(source[start..], stop) && source[next..] == After(source[start..], stop)
  {
    taken, next := "", start;
    while next < |source|
      invariant start <= next <= |source|
      invariant taken + Before(source[next..], stop) == Before(source[start..], stop)
      invariant After(source[next..], stop) == After(source[start..], stop)
    {
      var c := source[next];
      TakenOneMore(source[next..], stop);
      DropTwice(source, next, 1);
      next := next + 1;
      if c == stop {
        return;
      }
      Associative(taken, [c], Before(source[next..], stop));
      taken := taken + [c];
    }
  }

  lemma TakenOneMore(s: string, stop: char)
    requires s != ""
    ensures Before(s, stop) == if s[0] == stop then "" else [s[0]] + Before(s[1..], stop)
    ensures After(s, stop) == if s[0] == stop then s[1..] else After(s[1..], stop)
  {
  }

  function Before(s: string, stop: char): (taken: string)
    ensures taken <= s
  {
    if s == "" || s[0] == stop then "" else [s[0]] + Before(s[1..], stop)
  }

  function After(s: string, stop: char): (rest: string)
    ensures |rest| <= |s|
    ensures rest == s[|s| - |rest|..]
  {
    if s == "" then ""
    else if s[0] == stop then s[1..]
    else After(s[1..], stop)
  }

  // ── What a source means ───────────────────────────────────────────────────

  predicate IsBrace(c: char) {
    c == '{' || c == '}'
  }

  function Echo(name: string): string {
    "{" + name + "}"
  }

  /** The first argument of that name, or the placeholder itself. */
  function Filled(args: seq<(string, Arg)>, name: string): string {
    if args == [] then Echo(name)
    else if args[0].0 == name then args[0].1.English()
    else Filled(args[1..], name)
  }

  /** The text of the first construct of a source, and how much source it takes. */
  function Piece(s: string, args: seq<(string, Arg)>): (piece: (string, nat))
    requires s != ""
    ensures 0 < piece.1 <= |s|
  {
    if s[0] == '\'' && |s| > 1 && s[1] == '\'' then
      ("'", 2)
    else if s[0] == '\'' && |s| > 1 && IsBrace(s[1]) then
      (Before(s[1..], '\''), |s| - |After(s[1..], '\'')|)
    else if s[0] == '{' then
      (Filled(args, Before(s[1..], '}')), |s| - |After(s[1..], '}')|)
    else
      ([s[0]], 1)
  }

  function Render(s: string, args: seq<(string, Arg)>): string
    decreases |s|
  {
    if s == "" then "" else Piece(s, args).0 + Render(s[Piece(s, args).1..], args)
  }

  lemma RenderStep(s: string, args: seq<(string, Arg)>)
    requires s != ""
    ensures Render(s, args) == Piece(s, args).0 + Render(s[Piece(s, args).1..], args)
  {
  }

  /** A quotation or a placeholder takes everything up to its end. */
  lemma AfterIsTheRest(s: string, stop: char)
    requires s != ""
    ensures s[|s| - |After(s[1..], stop)|..] == After(s[1..], stop)
  {
    DropTwice(s, 1, |s| - 1 - |After(s[1..], stop)|);
  }

  // ── Templates ─────────────────────────────────────────────────────────────

  datatype Part = Literal(text: string) | Hole(name: string)

  /** A template is a function of what it is given for each placeholder. */
  function Instantiate(template: seq<Part>, fill: string -> string): string {
    if template == [] then ""
    else
      (match template[0] case Literal(text) => text case Hole(name) => fill(name))
      + Instantiate(template[1..], fill)
  }

  /** A template is its parts one after the other: literals as they are, and what is
      given for each placeholder. */
  lemma {:induction false} TemplateIsItsParts(a: seq<Part>, part: Part, b: seq<Part>, fill: string -> string)
    ensures Instantiate([], fill) == ""
    ensures Instantiate(a + [part] + b, fill)
         == Instantiate(a, fill)
            + (match part case Literal(text) => text case Hole(name) => fill(name))
            + Instantiate(b, fill)
  {
    var whole := a + [part] + b;
    if a == [] {
      assert whole[1..] == b;
    } else {
      TemplateIsItsParts(a[1..], part, b, fill);
      assert whole[1..] == a[1..] + [part] + b;
      var first := match a[0] case Literal(text) => text case Hole(name) => fill(name);
      var middle := match part case Literal(text) => text case Hole(name) => fill(name);
      Associative(first, Instantiate(a[1..], fill), middle);
      Associative(first, Instantiate(a[1..], fill) + middle, Instantiate(b, fill));
    }
  }

  function New(template: seq<Part>): NotifyMessage {
    NotifyMessage(Instantiate(template, Echo), [])
  }

  function Verbatim(text: string): NotifyMessage {
    NotifyMessage("{text}", [("text", Text(text))])
  }

  /** No brace opens, and no apostrophe is last or comes before an apostrophe or
      a brace. */
  predicate Plain(text: string) {
    text == "" ||
    (&& text[0] != '{'
     && (text[0] == '\'' ==> |text| > 1 && text[1] != '\'' && !IsBrace(text[1]))
     && Plain(text[1..]))
  }

  predicate NameFits(name: string) {
    '}' !in name
  }

  predicate PlainTemplate(template: seq<Part>) {
    forall part :: part in template ==> match part
                                        case Literal(text) => Plain(text)
                                        case Hole(name) => NameFits(name)
  }

  lemma PlainFirst(text: string, rest: string, args: seq<(string, Arg)>)
    requires text != "" && Plain(text)
    ensures Render(text + rest, args) == [text[0]] + Render(text[1..] + rest, args)
  {
    var s := text + rest;
    assert s[0] == text[0] && (|text| > 1 ==> s[1] == text[1]);
    assert s[1..] == text[1..] + rest;
    RenderStep(s, args);
  }

  lemma {:induction false} RenderPlain(text: string, rest: string, args: seq<(string, Arg)>)
    requires Plain(text)
    ensures Render(text + rest, args) == text + Render(rest, args)
  {
    if text == "" {
      assert text + rest == rest;
    } else {
      PlainFirst(text, rest, args);
      RenderPlain(text[1..], rest, args);
      Associative([text[0]], text[1..], Render(rest, args));
      assert [text[0]] + text[1..] == text;
    }
  }

  lemma {:induction false} BeforeAndAfter(name: string, stop: char, rest: string)
    requires stop !in name
    ensures Before(name + [stop] + rest, stop) == name
    ensures After(name + [stop] + rest, stop) == rest
  {
    var s := name + [stop] + rest;
    if name == "" {
      assert s == [stop] + rest;
    } else {
      BeforeAndAfter(name[1..], stop, rest);
      assert s[1..] == name[1..] + [stop] + rest;
    }
  }

  lemma RenderHole(name: string, rest: string, args: seq<(string, Arg)>)
    requires NameFits(name)
    ensures Render(Echo(name) + rest, args) == Filled(args, name) + Render(rest, args)
  {
    var s := Echo(name) + rest;
    assert s[1..] == name + ['}'] + rest;
    BeforeAndAfter(name, '}', rest);
    AfterIsTheRest(s, '}');
    RenderStep(s, args);
  }

  /** Rendering the source of a template is instantiating the template with the
      arguments: argument text goes in as it is and is not read again. */
  lemma {:induction false} RenderingFillsTheTemplate(template: seq<Part>, args: seq<(string, Arg)>)
    requires PlainTemplate(template)
    ensures Render(Instantiate(template, Echo), args) == Instantiate(template, name => Filled(args, name))
  {
    if template != [] {
      var rest := Instantiate(template[1..], Echo);
      assert template[0] in template;
      assert forall part :: part in template[1..] ==> part in template;
      RenderingFillsTheTemplate(template[1..], args);
      match template[0] {
        case Literal(text) => RenderPlain(text, rest, args);
        case Hole(name) => RenderHole(name, rest, args);
      }
    }
  }

  lemma {:induction false} InstantiateAgrees(template: seq<Part>, fill: string -> string, other: string -> string)
    requires forall name :: fill(name) == other(name)
    ensures Instantiate(template, fill) == Instantiate(template, other)
  {
    if template != [] {
      InstantiateAgrees(template[1..], fill, other);
    }
  }

  /** Without arguments a new message renders to its own source. */
  lemma NoArgumentsGiveTheSource(template: seq<Part>)
    requires PlainTemplate(template)
    ensures New(template).Rendered() == New(template).source
  {
    RenderingFillsTheTemplate(template, []);
    InstantiateAgrees(template, name => Filled([], name), Echo);
  }

  /** The argument added first under a name is the one that shows. */
  lemma {:induction false} EarlierArgumentWins(args: seq<(string, Arg)>, name: string, value: Arg, other: string)
    ensures Filled(args + [(name, value)], other)
         == if other == name && forall arg :: arg in args ==> arg.0 != name then value.English()
            else Filled(args, other)
  {
    if args != [] {
      EarlierArgumentWins(args[1..], name, value, other);
      assert (args + [(name, value)])[1..] == args[1..] + [(name, value)];
      assert forall arg :: arg in args <==> arg == args[0] || arg in args[1..];
    }
  }

  /** The places of `name` show `shown`, the others what the message has for them. */
  function PlaceFilled(message: NotifyMessage, name: string, shown: string): string -> string {
    other => if other == name then shown else Filled(message.args, other)
  }

  /** A whole number as people write it: after the sign one to three digits, then groups
      of three, and the number when the commas are dropped. */
  ghost predicate Shows(shown: string, count: int) {
    var groups := Groups(if count < 0 && shown != "" then shown[1..] else shown);
    && Parse(WithoutCommas(shown)) == Some(count)
    && (count < 0 <==> "-" <= shown)
    && 1 <= |groups[0]| <= 3 && (forall i :: 0 < i < |groups| ==> |groups[i]| == 3)
    && (forall i :: 0 <= i < |groups| ==> AllDigits(groups[i]))
  }

  /** Giving a message of a template an argument it does not have yet fills just the
      places of that name, with the text as it is or the number grouped. */
  lemma AddedArgumentFillsItsPlaces(
    template: seq<Part>, message: NotifyMessage, name: string, text: string, count: Int64
  ) returns (shown: string)
    requires PlainTemplate(template) && message.source == New(template).source
    requires forall arg :: arg in message.args ==> arg.0 != name
    ensures message.WithText(name, text).Rendered() == Instantiate(template, PlaceFilled(message, name, text))
    ensures message.WithCount(name, count).Rendered() == Instantiate(template, PlaceFilled(message, name, shown))
    ensures Shows(shown, count)
  {
    shown := Grouped(count);
    AddedFills(template, message, name, Text(text));
    AddedFills(template, message, name, Count(count));
    GroupedRoundTrip(count);
    GroupShape(count);
  }

  lemma AddedFills(template: seq<Part>, message: NotifyMessage, name: string, value: Arg)
    requires PlainTemplate(template)
    requires forall arg :: arg in message.args ==> arg.0 != name
    ensures Render(New(template).source, message.args + [(name, value)])
         == Instantiate(template, PlaceFilled(message, name, value.English()))
  {
    var args := message.args + [(name, value)];
    RenderingFillsTheTemplate(template, args);
    forall other ensures Filled(args, other) == PlaceFilled(message, name, value.English())(other) {
      EarlierArgumentWins(message.args, name, value, other);
    }
    InstantiateAgrees(template, other => Filled(args, other), PlaceFilled(message, name, value.English()));
  }

  lemma VerbatimIsVerbatim(text: string)
    ensures Verbatim(text).Rendered() == text
  {
    RenderHole("text", "", Verbatim(text).args);
    assert Echo("text") + "" == "{text}";
  }

  // ── Quoting ───────────────────────────────────────────────────────────────

  function QuotedChar(c: char): string {
    if c == '\'' then ['\'', '\'']
    else if IsBrace(c) then ['\'', c, '\'']
    else [c]
  }

  /** A literal with each apostrophe doubled and each brace quoted. */
  function Quoted(text: string): string {
    if text == "" then "" else QuotedChar(text[0]) + Quoted(text[1..])
  }

  lemma RenderQuotedBrace(c: char, rest: string, args: seq<(string, Arg)>)
    requires IsBrace(c)
    ensures Render(['\'', c, '\''] + rest, args) == [c] + Render(rest, args)
  {
    var s := ['\'', c, '\''] + rest;
    assert s[1..] == [c] + ['\''] + rest;
    BeforeAndAfter([c], '\'', rest);
    AfterIsTheRest(s, '\'');
    RenderStep(s, args);
  }

  lemma RenderDoubledApostrophe(rest: string, args: seq<(string, Arg)>)
    ensures Render(['\'', '\''] + rest, args) == ['\''] + Render(rest, args)
  {
    var s := ['\'', '\''] + rest;
    RenderStep(s, args);
    assert s[2..] == rest;
  }

  lemma RenderQuotedChar(c: char, rest: string, args: seq<(string, Arg)>)
    ensures Render(QuotedChar(c) + rest, args) == [c] + Render(rest, args)
  {
    if IsBrace(c) {
      RenderQuotedBrace(c, rest, args);
    } else if c == '\'' {
      RenderDoubledApostrophe(rest, args);
    } else {
      RenderPlain([c], rest, args);
    }
  }

  /** Any text at all, quoted, renders back to itself before any rest. */
  lemma {:induction false} QuotedTextComesBack(text: string, rest: string, args: seq<(string, Arg)>)
    ensures Render(Quoted(text) + rest, args) == text + Render(rest, args)
  {
    if text == "" {
      assert Quoted(text) + rest == rest;
    } else {
      var more := Quoted(text[1..]) + rest;
      Associative(QuotedChar(text[0]), Quoted(text[1..]), rest);
      RenderQuotedChar(text[0], more, args);
      QuotedTextComesBack(text[1..], rest, args);
      Associative([text[0]], text[1..], Render(rest, args));
      assert [text[0]] + text[1..] == text;
    }
  }

  function QuotedTemplate(template: seq<Part>): seq<Part> {
    if template == [] then []
    else
      [match template[0] case Literal(text) => Literal(Quoted(text)) case Hole(name) => Hole(name)]
      + QuotedTemplate(template[1..])
  }

  /** A template of any literals whatever renders as meant once they are quoted. */
  lemma {:induction false} QuotedTemplateRendersAsMeant(template: seq<Part>, args: seq<(string, Arg)>)
    requires forall part :: part in template && part.Hole? ==> NameFits(part.name)
    ensures Render(Instantiate(QuotedTemplate(template), Echo), args)
         == Instantiate(template, name => Filled(args, name))
  {
    if template != [] {
      var quoted := QuotedTemplate(template);
      assert quoted[1..] == QuotedTemplate(template[1..]);
      var rest := Instantiate(quoted[1..], Echo);
      QuotedTemplateRendersAsMeant(template[1..], args);
      assert template[0] in template;
      match template[0] {
        case Literal(text) => QuotedTextComesBack(text, rest, args);
        case Hole(name) => RenderHole(name, rest, args);
      }
    }
  }

  // ── Grouped numbers ───────────────────────────────────────────────────────

  function Abs(value: int): nat {
    if value < 0 then -value else value
  }

  /** Commas before every third digit counted from the right. */
  function ByThrees(digits: string): string {
    if |digits| <= 3 then digits
    else ByThrees(digits[..|digits| - 3]) + "," + digits[|digits| - 3..]
  }

  function Sign(value: int): string {
    if value < 0 then "-" else ""
  }

  function Grouped(value: int): string {
    Sign(value) + ByThrees(Digits(Abs(value)))
  }

  /** The digits written so far, each with the comma that goes before it. */
  function Pushed(digits: string, n: nat): string
    requires n <= |digits|
  {
    if n == 0 then ""
    else
      var index := n - 1;
      Pushed(digits, index)
      + (if index > 0 && (|digits| - index) % 3 == 0 then "," else "") + [digits[index]]
  }

  lemma {:induction false} PushedPrefix(digits: string, n: nat)
    requires n <= |digits| - 3
    ensures Pushed(digits, n) == Pushed(digits[..|digits| - 3], n)
  {
    if n > 0 {
      PushedPrefix(digits, n - 1);
    }
  }

  lemma {:induction false} PushedIsByThrees(digits: string)
    ensures Pushed(digits, |digits|) == ByThrees(digits)
  {
    var n := |digits|;
    if n <= 3 {
      PushedShort(digits, n);
    } else {
      PushedPrefix(digits, n - 3);
      PushedIsByThrees(digits[..n - 3]);
      PushedLastThree(digits);
    }
  }

  lemma PushedStep(digits: string, index: nat)
    requires index < |digits|
    ensures Pushed(digits, index + 1)
         == Pushed(digits, index) + (if index > 0 && (|digits| - index) % 3 == 0 then "," else "") + [digits[index]]
  {
  }

  lemma PushedLastThree(digits: string)
    requires |digits| > 3
    ensures Pushed(digits, |digits|) == Pushed(digits, |digits| - 3) + "," + digits[|digits| - 3..]
  {
    var n := |digits|;
    PushedStep(digits, n - 3);
    PushedStep(digits, n - 2);
    PushedStep(digits, n - 1);
    ThreeMore(
      Pushed(digits, n - 3), digits[n - 3..], Pushed(digits, n - 2), Pushed(digits, n - 1), Pushed(digits, n));
  }

  lemma ThreeMore(front: string, last: string, one: string, two: string, three: string)
    requires |last| == 3
    requires one == front + "," + [last[0]] && two == one + "" + [last[1]] && three == two + "" + [last[2]]
    ensures three == front + "," + last
  {
    assert [last[0]] + [last[1]] + [last[2]] == last;
  }

  lemma {:induction false} PushedShort(digits: string, n: nat)
    requires n <= |digits| <= 3
    ensures Pushed(digits, n) == digits[..n]
  {
    if n > 0 {
      PushedShort(digits, n - 1);
      assert digits[..n] == digits[..n - 1] + [digits[n - 1]];
    }
  }

  method EnglishCount(value: Int64) returns (grouped: string)
    ensures grouped == Grouped(value)
  {
    var digits := Digits(Abs(value));
    grouped := "";
    if value < 0 {
      grouped := grouped + "-";
    }
    for index := 0 to |digits|
      invariant grouped == Sign(value) + Pushed(digits, index)
    {
      if index > 0 && (|digits| - index) % 3 == 0 {
        grouped := grouped + ",";
      }
      grouped := grouped + [digits[index]];
    }
    PushedIsByThrees(digits);
  }

  function WithoutCommas(s: string): string {
    if s == "" then ""
    else (if s[0] == ',' then "" else [s[0]]) + WithoutCommas(s[1..])
  }

  function Parse(s: string): Option<int> {
    var digits := if "-" <= s then s[1..] else s;
    if digits == "" || !AllDigits(digits) then None
    else Some(if "-" <= s then -(Value(digits) as int) else Value(digits))
  }

  lemma {:induction false} WithoutCommasAppend(a: string, b: string)
    ensures WithoutCommas(a + b) == WithoutCommas(a) + WithoutCommas(b)
  {
    if a == "" {
      assert a + b == b;
    } else {
      WithoutCommasAppend(a[1..], b);
      assert (a + b)[1..] == a[1..] + b;
      Associative(if a[0] == ',' then "" else [a[0]], WithoutCommas(a[1..]), WithoutCommas(b));
    }
  }

  lemma {:induction false} NoCommasToDrop(s: string)
    requires ',' !in s
    ensures WithoutCommas(s) == s
  {
    if s != "" {
      NoCommasToDrop(s[1..]);
    }
  }

  lemma CommaGoes(front: string, last: string)
    requires ',' !in last
    ensures WithoutCommas(front + "," + last) == WithoutCommas(front) + last
  {
    NoCommasToDrop(last);
    assert ("," + last)[1..] == last;
    assert WithoutCommas("," + last) == "" + last;
    WithoutCommasAppend(front, "," + last);
    Associative(front, ",", last);
  }

  lemma {:induction false} UngroupDigits(digits: string)
    requires AllDigits(digits)
    ensures WithoutCommas(ByThrees(digits)) == digits
  {
    var n := |digits|;
    if n <= 3 {
      NoCommasToDrop(digits);
    } else {
      var front, last := digits[..n - 3], digits[n - 3..];
      UngroupDigits(front);
      CommaGoes(ByThrees(front), last);
      assert front + last == digits;
    }
  }

  /** Every number is read back from its grouped text. */
  lemma GroupedRoundTrip(value: Int64)
    ensures Parse(WithoutCommas(Grouped(value))) == Some(value)
  {
    var digits := Digits(Abs(value));
    UngroupDigits(digits);
    NoCommasToDrop(Sign(value));
    WithoutCommasAppend(Sign(value), ByThrees(digits));
    ParseSigned(value, digits);
  }

  lemma ParseSigned(value: int, digits: string)
    requires digits != "" && AllDigits(digits)
    ensures Parse(Sign(value) + digits) == Some(if value < 0 then -(Value(digits) as int) else Value(digits))
  {
    var text := Sign(value) + digits;
    if value < 0 {
      assert text[1..] == digits;
    } else {
      assert text == digits && IsDigit(text[0]);
    }
  }

  /** The pieces between commas. */
  function Groups(s: string): (groups: seq<string>)
    ensures |groups| > 0
  {
    if s == "" then [""]
    else
      var groups := Groups(s[1..]);
      if s[0] == ',' then [""] + groups else [[s[0]] + groups[0]] + groups[1..]
  }

  lemma {:induction false} GroupsSnoc(a: string, last: string)
    requires ',' !in last
    ensures Groups(a + "," + last) == Groups(a) + [last]
  {
    var s := a + "," + last;
    if a == "" {
      assert s[1..] == last;
      OneGroup(last);
    } else {
      assert s[1..] == a[1..] + "," + last;
      GroupsSnoc(a[1..], last);
    }
  }

  lemma {:induction false} OneGroup(s: string)
    requires ',' !in s
    ensures Groups(s) == [s]
  {
    if s != "" {
      OneGroup(s[1..]);
      assert [s[0]] + s[1..] == s;
    }
  }

  lemma {:induction false} GroupsOfThree(digits: string)
    requires AllDigits(digits) && digits != ""
    ensures var groups := Groups(ByThrees(digits));
            && 1 <= |groups[0]| <= 3
            && (forall i :: 0 < i < |groups| ==> |groups[i]| == 3)
            && (forall i :: 0 <= i < |groups| ==> AllDigits(groups[i]))
  {
    var n := |digits|;
    if n <= 3 {
      OneGroup(digits);
    } else {
      GroupsOfThree(digits[..n - 3]);
      GroupsSnoc(ByThrees(digits[..n - 3]), digits[n - 3..]);
    }
  }

  /** After the sign: one to three digits, then only groups of three. */
  lemma GroupShape(value: Int64)
    ensures var text := Grouped(value);
            var groups := Groups(if value < 0 then text[1..] else text);
            && 1 <= |groups[0]| <= 3
            && (forall i :: 0 < i < |groups| ==> |groups[i]| == 3)
            && (forall i :: 0 <= i < |groups| ==> AllDigits(groups[i]))
            && (value < 0 <==> "-" <= text)
  {
    var digits := Digits(Abs(value));
    GroupsOfThree(digits);
    FirstOfGrouped(digits);
    if value < 0 {
      assert Grouped(value)[1..] == ByThrees(digits);
    } else {
      assert Grouped(value) == ByThrees(digits);
    }
  }

  lemma {:induction false} FirstOfGrouped(digits: string)
    requires AllDigits(digits) && digits != ""
    ensures ByThrees(digits) != "" && IsDigit(ByThrees(digits)[0])
  {
    if |digits| > 3 {
      FirstOfGrouped(digits[..|digits| - 3]);
    }
  }
}
