/**
 ICU's reading of a message source, in which a doubled apostrophe is a literal one
 also inside a quotation, and where the renderer agrees with it.
 */
module Icu {
  import opened Notify
  import opened Sequences

  function IcuRender(s: string, args: seq<(string, Arg)>): string
    decreases |s|
  {
    if s == "" then ""
    else if Doubled(s) then ['\''] + IcuRender(s[2..], args)
    else if OpensQuotation(s) then IcuQuoted(s[1..], args)
    else if s[0] == '{' then Filled(args, Before(s[1..], '}')) + IcuRender(After(s[1..], '}'), args)
    else [s[0]] + IcuRender(s[1..], args)
  }

  /** The rest of a source from inside a quotation. */
  function IcuQuoted(s: string, args: seq<(string, Arg)>): string
    decreases |s|
  {
    if s == "" then ""
    else if Doubled(s) then ['\''] + IcuQuoted(s[2..], args)
    else if s[0] == '\'' then IcuRender(s[1..], args)
    else [s[0]] + IcuQuoted(s[1..], args)
  }

  predicate StartsWithApostrophe(s: string) {
    s != "" && s[0] == '\''
  }

  predicate Doubled(s: string) {
    |s| > 1 && s[0] == '\'' && s[1] == '\''
  }

  predicate OpensQuotation(s: string) {
    |s| > 1 && s[0] == '\'' && IsBrace(s[1])
  }

  /** What is left of a source after its first construct. */
  function Rest(s: string): (rest: string)
    requires s != ""
    ensures |rest| < |s|
  {
    s[Piece(s, []).1..]
  }

  lemma RenderUnfolds(s: string, args: seq<(string, Arg)>)
    requires s != ""
    ensures Render(s, args) == Piece(s, args).0 + Render(Rest(s), args)
  {
    RenderStep(s, args);
  }

  lemma RenderQuotation(s: string, args: seq<(string, Arg)>)
    requires OpensQuotation(s)
    ensures Rest(s) == After(s[1..], '\'')
    ensures Render(s, args) == Before(s[1..], '\'') + Render(After(s[1..], '\''), args)
  {
    AfterIsTheRest(s, '\'');
    RenderUnfolds(s, args);
  }

  /** What ICU makes of a source from behind the apostrophe that may end a quotation. */
  function IcuBehind(rest: string, args: seq<(string, Arg)>): string {
    if StartsWithApostrophe(rest) then ['\''] + IcuQuoted(rest[1..], args) else IcuRender(rest, args)
  }

  lemma QuotedStep(s: string, args: seq<(string, Arg)>)
    requires s != ""
    ensures IcuQuoted(s, args) == if s[0] == '\'' then IcuBehind(s[1..], args) else [s[0]] + IcuQuoted(s[1..], args)
  {
    if Doubled(s) { assert s[1..][1..] == s[2..]; }
  }

  /** Inside a quotation ICU goes on past a doubled apostrophe. */
  lemma {:induction false} QuotedUnfolds(s: string, args: seq<(string, Arg)>)
    ensures IcuQuoted(s, args) == Before(s, '\'') + IcuBehind(After(s, '\''), args)
  {
    if s != "" {
      QuotedStep(s, args);
      if s[0] != '\'' {
        QuotedUnfolds(s[1..], args);
        Associative([s[0]], Before(s[1..], '\''), IcuBehind(After(s[1..], '\''), args));
      }
    }
  }

  /** Any construct but a quotation closed by a doubled apostrophe reads alike. */
  lemma OneConstructAgrees(s: string, args: seq<(string, Arg)>)
    requires s != "" && !ClosesDoubled(s)
    ensures IcuRender(s, args) == Piece(s, args).0 + IcuRender(Rest(s), args)
  {
    if OpensQuotation(s) {
      RenderQuotation(s, args);
      QuotedUnfolds(s[1..], args);
    } else if !Doubled(s) && s[0] == '{' {
      AfterIsTheRest(s, '}');
    }
  }

  // ── Agreement ─────────────────────────────────────────────────────────────

  /** The first construct is a quotation whose closing apostrophe has another one
      right behind it. */
  predicate ClosesDoubled(s: string) {
    OpensQuotation(s) && StartsWithApostrophe(After(s[1..], '\''))
  }

  /** No quotation of the source is closed by an apostrophe followed by another. */
  predicate NeverClosesDoubled(s: string)
    decreases |s|
  {
    s == "" || (!ClosesDoubled(s) && NeverClosesDoubled(Rest(s)))
  }

  /** On such sources the renderer is ICU's. */
  lemma {:induction false} RendersAsIcu(s: string, args: seq<(string, Arg)>)
    requires NeverClosesDoubled(s)
    ensures Render(s, args) == IcuRender(s, args)
    decreases |s|
  {
    if s != "" {
      RenderUnfolds(s, args);
      OneConstructAgrees(s, args);
      RendersAsIcu(Rest(s), args);
    }
  }

  // ── Disagreement ──────────────────────────────────────────────────────────

  /** The first quotation closed by a doubled apostrophe has a brace behind it. */
  predicate ClosesDoubledAtBrace(s: string)
    decreases |s|
  {
    && s != ""
    && if ClosesDoubled(s) then |Rest(s)| > 1 && IsBrace(Rest(s)[1]) else ClosesDoubledAtBrace(Rest(s))
  }

  lemma DifferAt(prefix: string, a: string, b: string)
    requires a != b
    ensures prefix + a != prefix + b
  {
    if prefix + a == prefix + b {
      SameParts(prefix, a, prefix, b);
    }
  }

  /** There the renderer opens a new quotation where ICU writes an apostrophe, so the
      results differ whatever the arguments are. */
  lemma {:induction false} BraceBehindDoubledDiffers(s: string, args: seq<(string, Arg)>)
    requires ClosesDoubledAtBrace(s)
    ensures Render(s, args) != IcuRender(s, args)
    decreases |s|
  {
    RenderUnfolds(s, args);
    if ClosesDoubled(s) {
      RenderQuotation(s, args);
      QuotedUnfolds(s[1..], args);
      var rest := Rest(s);
      RenderQuotation(rest, args);
      assert Render(rest, args)[0] == rest[1];
      assert (['\''] + IcuQuoted(rest[1..], args))[0] == '\'';
      DifferAt(Before(s[1..], '\''), Render(rest, args), ['\''] + IcuQuoted(rest[1..], args));
    } else {
      OneConstructAgrees(s, args);
      BraceBehindDoubledDiffers(Rest(s), args);
      DifferAt(Piece(s, args).0, Render(Rest(s), args), IcuRender(Rest(s), args));
    }
  }

  /** The shortest such source: two quoted braces to the renderer, a quotation of
      both braces around an apostrophe to ICU. */
  lemma QuotedBracesDiffer(args: seq<(string, Arg)>)
    ensures ClosesDoubledAtBrace("'{''}'")
    ensures Render("'{''}'", args) == "{}"
    ensures IcuRender("'{''}'", args) == "{'}"
  {
    ShortestCloses();
    ShortestRendered(args);
    ShortestInIcu(args);
  }

  lemma ShortestRendered(args: seq<(string, Arg)>)
    ensures Render("'{''}'", args) == "{}"
  {
    var second := ['\'', '}', '\''];
    assert ['\'', '{', '\''] + second == "'{''}'";
    RenderQuotedBrace('{', second, args);
    assert second + [] == second;
    RenderQuotedBrace('}', [], args);
  }

  lemma ShortestCloses()
    ensures ClosesDoubledAtBrace("'{''}'")
  {
    var second := ['\'', '}', '\''];
    assert "'{''}'"[1..] == ['{', '\''] + second;
    AfterOneCharacter('{', second);
    RenderQuotation("'{''}'", []);
  }

  lemma AfterOneCharacter(c: char, rest: string)
    requires c != '\''
    ensures Before([c, '\''] + rest, '\'') == [c] && After([c, '\''] + rest, '\'') == rest
  {
    assert [c] + ['\''] + rest == [c, '\''] + rest;
    BeforeAndAfter([c], '\'', rest);
  }

  lemma ShortestInIcu(args: seq<(string, Arg)>)
    ensures IcuRender("'{''}'", args) == "{'}"
  {
    var quoted := "'{''}'"[1..];
    var second := ['\'', '}', '\''];
    assert quoted == ['{', '\''] + second;
    QuotedUnfolds(quoted, args);
    AfterOneCharacter('{', second);
    assert second[1..] == ['}', '\''] + [];
    QuotedUnfolds(second[1..], args);
    AfterOneCharacter('}', []);
    assert IcuRender("'{''}'", args) == ['{'] + (['\''] + (['}'] + []));
  }

  // ── Exactly when they agree ───────────────────────────────────────────────

  /** The rest of a source from inside a quotation, as the renderer reads it: the next
      apostrophe ends it. */
  function Inside(s: string, args: seq<(string, Arg)>): string {
    Before(s, '\'') + Render(After(s, '\''), args)
  }

  lemma InsideStep(s: string, args: seq<(string, Arg)>)
    requires s != ""
    ensures Inside(s, args) == if s[0] == '\'' then Render(s[1..], args) else [s[0]] + Inside(s[1..], args)
  {
    if s[0] == '\'' {
      assert "" + Render(s[1..], args) == Render(s[1..], args);
    } else {
      Associative([s[0]], Before(s[1..], '\''), Render(After(s[1..], '\''), args));
    }
  }

  lemma RenderFirst(s: string, args: seq<(string, Arg)>)
    requires s != ""
    ensures Render(s, args)
         == if Doubled(s) then ['\''] + Render(s[2..], args)
            else if OpensQuotation(s) then Inside(s[1..], args)
            else if s[0] == '{' then Filled(args, Before(s[1..], '}')) + Render(After(s[1..], '}'), args)
            else [s[0]] + Render(s[1..], args)
  {
    RenderUnfolds(s, args);
    if OpensQuotation(s) {
      RenderQuotation(s, args);
    } else if !Doubled(s) && s[0] == '{' {
      AfterIsTheRest(s, '}');
    }
  }

  /** Where the two readers stand: inside a quotation or not, and whether the renderer
      still has to write an apostrophe that ICU has written. */
  datatype Stand = Together | BothInside | IcuInside | OursInside | BehindIcuInside | Behind

  function Ours(stand: Stand, s: string, args: seq<(string, Arg)>): string {
    match stand
    case Together => Render(s, args)
    case IcuInside => Render(s, args)
    case BothInside => Inside(s, args)
    case OursInside => Inside(s, args)
    case BehindIcuInside => Render(['\''] + s, args)
    case Behind => Render(['\''] + s, args)
  }

  function Theirs(stand: Stand, s: string, args: seq<(string, Arg)>): string {
    match stand
    case Together => IcuRender(s, args)
    case OursInside => IcuRender(s, args)
    case BothInside => IcuQuoted(s, args)
    case IcuInside => IcuQuoted(s, args)
    case BehindIcuInside => ['\''] + IcuQuoted(s, args)
    case Behind => ['\''] + IcuRender(s, args)
  }

  /** The readers write different text, or the same and go on with a shorter rest. */
  datatype Move = Part | Go(stand: Stand, rest: string)

  function Next(stand: Stand, s: string): (move: Move)
    requires s != ""
    ensures move.Go? ==> |move.rest| < |s|
  {
    match stand
    case Together =>
      if Doubled(s) then Go(Together, s[2..])
      else if OpensQuotation(s) then Go(BothInside, s[1..])
      else if s[0] == '{' then Go(Together, After(s[1..], '}'))
      else Go(Together, s[1..])
    case BothInside =>
      if Doubled(s) then Go(BehindIcuInside, s[2..])
      else if s[0] == '\'' then Go(Together, s[1..])
      else Go(BothInside, s[1..])
    case IcuInside =>
      if Doubled(s) then Go(IcuInside, s[2..])
      else if OpensQuotation(s) && s[1] == '}' then Go(OursInside, s[2..])
      else if s[0] == '\'' || s[0] == '{' then Part
      else Go(IcuInside, s[1..])
    case OursInside =>
      if Doubled(s) then Go(Behind, s[2..])
      else if OpensQuotation(s) && s[1] == '}' then Go(IcuInside, s[2..])
      else if s[0] == '\'' || s[0] == '{' then Part
      else Go(OursInside, s[1..])
    case BehindIcuInside =>
      if Doubled(s) then Go(BehindIcuInside, s[2..])
      else if s[0] == '\'' then Go(Together, s[1..])
      else if IsBrace(s[0]) then Part
      else Go(IcuInside, s[1..])
    case Behind =>
      if Doubled(s) then Go(Behind, s[2..])
      else if OpensQuotation(s) && s[1] == '}' then Go(IcuInside, s[2..])
      else if s[0] == '\'' || IsBrace(s[0]) then Part
      else Go(Together, s[1..])
  }

  /** What both write when they go on. */
  function Written(stand: Stand, s: string, args: seq<(string, Arg)>): string
    requires s != ""
  {
    match stand
    case Together =>
      if Doubled(s) then ['\'']
      else if OpensQuotation(s) then []
      else if s[0] == '{' then Filled(args, Before(s[1..], '}'))
      else [s[0]]
    case BothInside => if s[0] == '\'' then [] else [s[0]]
    case IcuInside => if Doubled(s) then ['\''] else if OpensQuotation(s) then [s[1]] else [s[0]]
    case OursInside => if Doubled(s) then [] else if OpensQuotation(s) then [s[1]] else [s[0]]
    case BehindIcuInside => if s[0] == '\'' then ['\''] else ['\'', s[0]]
    case Behind =>
      if Doubled(s) then ['\''] else if OpensQuotation(s) then ['\'', s[1]] else ['\'', s[0]]
  }

  ghost predicate GoesOn(stand: Stand, s: string, args: seq<(string, Arg)>)
    requires s != ""
  {
    Next(stand, s).Go? ==>
      var (to, rest) := (Next(stand, s).stand, Next(stand, s).rest);
      && Ours(stand, s, args) == Written(stand, s, args) + Ours(to, rest, args)
      && Theirs(stand, s, args) == Written(stand, s, args) + Theirs(to, rest, args)
  }

  lemma TogetherGoesOn(s: string, args: seq<(string, Arg)>)
    requires s != ""
    ensures GoesOn(Together, s, args)
  {
    RenderFirst(s, args);
    var next := Next(Together, s);
    assert [] + Ours(next.stand, next.rest, args) == Ours(next.stand, next.rest, args);
    assert [] + Theirs(next.stand, next.rest, args) == Theirs(next.stand, next.rest, args);
  }

  lemma NothingWritten(text: string)
    ensures [] + text == text
  {
  }

  lemma BothInsideGoesOn(s: string, args: seq<(string, Arg)>)
    requires s != ""
    ensures GoesOn(BothInside, s, args)
  {
    InsideStep(s, args);
    QuotedStep(s, args);
    var next := Next(BothInside, s);
    if s[0] == '\'' {
      if Doubled(s) { assert s[1..] == ['\''] + s[2..] && s[1..][1..] == s[2..]; }
      NothingWritten(Ours(next.stand, next.rest, args));
      NothingWritten(Theirs(next.stand, next.rest, args));
    }
  }

  lemma IcuInsideGoesOn(s: string, args: seq<(string, Arg)>)
    requires s != ""
    ensures GoesOn(IcuInside, s, args)
  {
    RenderFirst(s, args);
    if OpensQuotation(s) {
      InsideStep(s[1..], args);
      assert s[1..][1..] == s[2..];
      assert IcuQuoted(s, args) == IcuRender(s[1..], args);
    }
  }

  /** A closing brace in front of which one quotation ends and the other begins. */
  lemma OursInsideAtBrace(s: string, args: seq<(string, Arg)>)
    requires OpensQuotation(s) && s[1] == '}'
    ensures Inside(s, args) == ['}'] + Render(s[2..], args)
    ensures IcuRender(s, args) == ['}'] + IcuQuoted(s[2..], args)
  {
    var rest := s[1..];
    assert rest[0] == '}' && rest[1..] == s[2..];
    InsideStep(s, args);
    RenderFirst(rest, args);
    assert IcuRender(s, args) == IcuQuoted(rest, args);
  }

  lemma OursInsideGoesOn(s: string, args: seq<(string, Arg)>)
    requires s != ""
    ensures GoesOn(OursInside, s, args)
  {
    InsideStep(s, args);
    if Doubled(s) {
      assert s[1..] == ['\''] + s[2..];
      assert [] + Ours(Behind, s[2..], args) == Ours(Behind, s[2..], args);
      assert [] + Theirs(Behind, s[2..], args) == Theirs(Behind, s[2..], args);
    } else if OpensQuotation(s) && s[1] == '}' {
      OursInsideAtBrace(s, args);
    }
  }

  /** An apostrophe, then a character, then the rest. */
  lemma Joined(c: char, text: string)
    ensures ['\''] + ([c] + text) == ['\'', c] + text
  {
  }

  lemma BehindApostrophe(s: string)
    requires s != ""
    ensures (['\''] + s)[1..] == s && (['\''] + s)[2..] == s[1..]
  {
  }

  /** What the renderer makes of the apostrophe it still has to write. */
  lemma LateApostrophe(s: string, args: seq<(string, Arg)>)
    requires s != ""
    ensures s[0] == '\'' ==> Render(['\''] + s, args) == ['\''] + Render(s[1..], args)
    ensures IsBrace(s[0]) ==> Render(['\''] + s, args) == [s[0]] + Inside(s[1..], args)
    ensures s[0] != '\'' && !IsBrace(s[0]) ==> Render(['\''] + s, args) == ['\'', s[0]] + Render(s[1..], args)
  {
    BehindApostrophe(s);
    RenderFirst(['\''] + s, args);
    if IsBrace(s[0]) {
      InsideStep(s, args);
    } else if s[0] != '\'' {
      RenderFirst(s, args);
      Joined(s[0], Render(s[1..], args));
    }
  }

  lemma LateApostropheAtApostrophe(s: string, args: seq<(string, Arg)>)
    requires Doubled(s)
    ensures Render(['\''] + s, args) == ['\''] + Render(['\''] + s[2..], args)
  {
    LateApostrophe(s, args);
    assert s[1..] == ['\''] + s[2..];
  }

  lemma BehindIcuInsideGoesOn(s: string, args: seq<(string, Arg)>)
    requires s != ""
    ensures GoesOn(BehindIcuInside, s, args)
  {
    if Doubled(s) {
      LateApostropheAtApostrophe(s, args);
    } else {
      LateApostrophe(s, args);
      if s[0] != '\'' { Joined(s[0], IcuQuoted(s[1..], args)); }
    }
  }

  /** Both open the quotation of a closing brace; the renderer, one apostrophe late,
      reads that brace outside of it. */
  lemma BehindClosingBrace(s: string, args: seq<(string, Arg)>)
    requires OpensQuotation(s) && s[1] == '}'
    ensures Ours(Behind, s, args) == ['\'', '}'] + Render(s[2..], args)
    ensures Theirs(Behind, s, args) == ['\'', '}'] + IcuQuoted(s[2..], args)
  {
    var rest := s[1..];
    assert rest[0] == '}' && rest[1..] == s[2..];
    LateApostrophe(s, args);
    RenderFirst(rest, args);
    assert IcuRender(s, args) == IcuQuoted(rest, args) == ['}'] + IcuQuoted(rest[1..], args);
    Joined('}', Render(s[2..], args));
    Joined('}', IcuQuoted(s[2..], args));
  }

  lemma BehindGoesOn(s: string, args: seq<(string, Arg)>)
    requires s != ""
    ensures GoesOn(Behind, s, args)
  {
    if Doubled(s) {
      LateApostropheAtApostrophe(s, args);
    } else if OpensQuotation(s) {
      if s[1] == '}' { BehindClosingBrace(s, args); }
    } else if s[0] != '\'' {
      LateApostrophe(s, args);
      Joined(s[0], IcuRender(s[1..], args));
    }
  }

  lemma ReadersGoOn(stand: Stand, s: string, args: seq<(string, Arg)>)
    requires s != ""
    ensures GoesOn(stand, s, args)
  {
    match stand
    case Together => TogetherGoesOn(s, args);
    case BothInside => BothInsideGoesOn(s, args);
    case IcuInside => IcuInsideGoesOn(s, args);
    case OursInside => OursInsideGoesOn(s, args);
    case BehindIcuInside => BehindIcuInsideGoesOn(s, args);
    case Behind => BehindGoesOn(s, args);
  }

  /** How many apostrophes both write first when no argument is given; then both write
      something else, or nothing. */
  lemma {:induction false} SameLead(s: string) returns (k: nat)
    ensures k <= |Render(s, [])| && k <= |IcuRender(s, [])|
    ensures forall i :: 0 <= i < k ==> Render(s, [])[i] == IcuRender(s, [])[i] == '\''
    ensures k == |Render(s, [])| <==> k == |IcuRender(s, [])|
    ensures k < |Render(s, [])| && k < |IcuRender(s, [])| ==>
              Render(s, [])[k] != '\'' && IcuRender(s, [])[k] != '\''
    decreases |s|
  {
    k := 0;
    if s != "" {
      RenderFirst(s, []);
      if s[0] == '\'' && !OpensQuotation(s) {
        var more := SameLead(if Doubled(s) then s[2..] else s[1..]);
        k := more + 1;
      } else if OpensQuotation(s) {
        InsideStep(s[1..], []);
      }
    }
  }

  /** An apostrophe too many is never made up for. */
  lemma OneApostropheMore(s: string)
    ensures ['\''] + Render(s, []) != IcuRender(s, [])
    ensures Render(s, []) != ['\''] + IcuRender(s, [])
  {
    var k := SameLead(s);
    var ours, theirs := Render(s, []), IcuRender(s, []);
    if k < |theirs| {
      assert (['\''] + ours)[k] == '\'' != theirs[k];
      assert (['\''] + theirs)[k] == '\'' != ours[k];
    }
  }

  /** With an argument for it, a placeholder does not start with its brace. */
  function Filling(s: string): seq<(string, Arg)> {
    [(Before(s, '}'), Text("x"))]
  }

  lemma FilledNotQuoted(s: string)
    requires s != "" && s[0] == '{'
    ensures var args := Filling(s[1..]);
            && |Render(s, args)| > 0 && Render(s, args)[0] == 'x'
            && |IcuRender(s, args)| > 0 && IcuRender(s, args)[0] == 'x'
  {
    RenderFirst(s, Filling(s[1..]));
  }

  lemma IcuInsideParts(s: string) returns (args: seq<(string, Arg)>)
    requires s != "" && Next(IcuInside, s) == Part
    ensures Ours(IcuInside, s, args) != Theirs(IcuInside, s, args)
  {
    if s[0] == '{' {
      args := Filling(s[1..]);
      FilledNotQuoted(s);
    } else if OpensQuotation(s) {
      args := Filling(s[1..][1..]);
      FilledNotQuoted(s[1..]);
      RenderFirst(s, args);
      InsideStep(s[1..], args);
    } else {
      args := [];
      RenderFirst(s, args);
      OneApostropheMore(s[1..]);
    }
  }

  /** Where ICU quotes an opening brace and the renderer reads a placeholder. */
  lemma QuotedOpeningBrace(s: string, args: seq<(string, Arg)>)
    requires OpensQuotation(s) && s[1] == '{'
    ensures |IcuRender(s, args)| > 0 && IcuRender(s, args)[0] == '{'
  {
    var rest := s[1..];
    assert IcuRender(s, args) == IcuQuoted(rest, args) && rest[0] == '{';
  }

  lemma OursInsideParts(s: string) returns (args: seq<(string, Arg)>)
    requires s != "" && Next(OursInside, s) == Part
    ensures Ours(OursInside, s, args) != Theirs(OursInside, s, args)
  {
    if s[0] == '{' {
      args := Filling(s[1..]);
      FilledNotQuoted(s);
    } else if OpensQuotation(s) {
      args := Filling(s[1..][1..]);
      FilledNotQuoted(s[1..]);
      QuotedOpeningBrace(s, args);
    } else {
      args := [];
      OneApostropheMore(s[1..]);
    }
    InsideStep(s, args);
  }

  lemma BehindParts(s: string) returns (args: seq<(string, Arg)>)
    requires s != "" && Next(Behind, s) == Part
    ensures Ours(Behind, s, args) != Theirs(Behind, s, args)
  {
    if OpensQuotation(s) {
      args := Filling(s[1..][1..]);
      FilledNotQuoted(s[1..]);
      QuotedOpeningBrace(s, args);
      LateApostrophe(s, args);
      DifferAt(['\''], Render(s[1..], args), IcuRender(s, args));
    } else if s[0] == '\'' {
      args := [];
      OneApostropheMore(s[1..]);
      LateApostrophe(s, args);
      DifferAt(['\''], Render(s[1..], args), IcuRender(s, args));
    } else {
      args := [];
      BraceBehind(s, args);
    }
  }

  /** Behind by an apostrophe, the renderer takes a brace for the start of a quotation. */
  lemma BraceBehind(s: string, args: seq<(string, Arg)>)
    requires s != "" && IsBrace(s[0])
    ensures |Render(['\''] + s, args)| > 0 && Render(['\''] + s, args)[0] == s[0]
  {
    LateApostrophe(s, args);
  }

  /** Where they part, some arguments show it. */
  lemma ReadersPart(stand: Stand, s: string) returns (args: seq<(string, Arg)>)
    requires s != "" && Next(stand, s) == Part
    ensures Ours(stand, s, args) != Theirs(stand, s, args)
  {
    match stand {
      case IcuInside => args := IcuInsideParts(s);
      case OursInside => args := OursInsideParts(s);
      case BehindIcuInside =>
        args := [];
        BraceBehind(s, args);
      case Behind => args := BehindParts(s);
    }
  }

  /** Two readers that walk over the source side by side never part. */
  predicate NeverPart(stand: Stand, s: string)
    decreases |s|
  {
    s == "" || (Next(stand, s).Go? && NeverPart(Next(stand, s).stand, Next(stand, s).rest))
  }

  lemma {:induction false} NeverPartingAgrees(stand: Stand, s: string, args: seq<(string, Arg)>)
    requires NeverPart(stand, s)
    ensures Ours(stand, s, args) == Theirs(stand, s, args)
    decreases |s|
  {
    if s == "" {
      assert ['\''] + s == ['\''] && ['\''][1..] == "";
      RenderFirst(['\''], args);
    } else {
      ReadersGoOn(stand, s, args);
      NeverPartingAgrees(Next(stand, s).stand, Next(stand, s).rest, args);
    }
  }

  lemma {:induction false} PartingShows(stand: Stand, s: string) returns (args: seq<(string, Arg)>)
    requires !NeverPart(stand, s)
    ensures Ours(stand, s, args) != Theirs(stand, s, args)
    decreases |s|
  {
    if Next(stand, s) == Part {
      args := ReadersPart(stand, s);
    } else {
      var to, rest := Next(stand, s).stand, Next(stand, s).rest;
      args := PartingShows(to, rest);
      ReadersGoOn(stand, s, args);
      DifferAt(Written(stand, s, args), Ours(to, rest, args), Theirs(to, rest, args));
    }
  }

  /** A source renders as ICU renders it, whatever the arguments are, if and only if the
      two readers never part on it. */
  lemma RendersAsIcuIff(s: string)
    ensures (forall args :: Render(s, args) == IcuRender(s, args)) <==> NeverPart(Together, s)
  {
    if NeverPart(Together, s) {
      forall args ensures Render(s, args) == IcuRender(s, args) {
        NeverPartingAgrees(Together, s, args);
      }
    } else {
      var args := PartingShows(Together, s);
      assert Render(s, args) != IcuRender(s, args);
    }
  }
}
