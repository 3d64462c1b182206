/**
 The term tokenizer of the blind index, over normalized text, and the full-text
 documents and queries made of keyed term tokens.
 */
module Terms {
  import opened Options
  import opened Utf8

  const MIN_TERM_CHARS := 2
  const MAX_TERM_CHARS := 64

  const STOPWORDS: seq<string> := [
    "a", "an", "and", "are", "as", "at", "be", "but", "by", "for", "from", "has", "have", "he",
    "her", "his", "i", "if", "in", "into", "is", "it", "its", "me", "my", "no", "not", "of", "on",
    "or", "our", "she", "so", "that", "the", "their", "them", "there", "they", "this", "to", "was",
    "we", "were", "what", "when", "which", "who", "will", "with", "you", "your"
  ]

  // ── Splitting ─────────────────────────────────────────────────────────────

  /** The pieces between the characters that are in no term. */
  function Pieces(isTerm: char -> bool, text: string): (pieces: seq<string>)
    ensures |pieces| > 0
  {
    if text == "" then [""]
    else
      var pieces := Pieces(isTerm, text[1..]);
      if isTerm(text[0]) then [[text[0]] + pieces[0]] + pieces[1..] else [""] + pieces
  }

  function Separators(isTerm: char -> bool, text: string): seq<char> {
    if text == "" then []
    else (if isTerm(text[0]) then [] else [text[0]]) + Separators(isTerm, text[1..])
  }

  function Interleave(pieces: seq<string>, separators: seq<char>): string
    requires |pieces| == |separators| + 1
  {
    if separators == [] then pieces[0]
    else pieces[0] + [separators[0]] + Interleave(pieces[1..], separators[1..])
  }

  predicate OnlyTermChars(isTerm: char -> bool, piece: string) {
    forall i :: 0 <= i < |piece| ==> isTerm(piece[i])
  }

  /** Splitting loses nothing and leaves no separator inside a piece. */
  lemma {:induction false} PiecesAreTheText(isTerm: char -> bool, text: string)
    ensures var (pieces, separators) := (Pieces(isTerm, text), Separators(isTerm, text));
            && |pieces| == |separators| + 1
            && Interleave(pieces, separators) == text
            && (forall i :: 0 <= i < |pieces| ==> OnlyTermChars(isTerm, pieces[i]))
            && (forall i :: 0 <= i < |separators| ==> !isTerm(separators[i]))
  {
    if text != "" {
      var pieces, separators := Pieces(isTerm, text[1..]), Separators(isTerm, text[1..]);
      PiecesAreTheText(isTerm, text[1..]);
      assert [text[0]] + text[1..] == text;
      if isTerm(text[0]) {
        InterleaveHead(text[0], pieces, separators);
        assert [] + separators == separators;
      } else {
        var whole := Interleave([""] + pieces, [text[0]] + separators);
        assert ([""] + pieces)[1..] == pieces && ([text[0]] + separators)[1..] == separators;
        assert whole == "" + [text[0]] + Interleave(pieces, separators);
      }
    }
  }

  lemma InterleaveHead(c: char, pieces: seq<string>, separators: seq<char>)
    requires |pieces| == |separators| + 1
    ensures Interleave([[c] + pieces[0]] + pieces[1..], separators) == [c] + Interleave(pieces, separators)
  {
    if separators != [] {
      var rest := Interleave(pieces[1..], separators[1..]);
      assert ([[c] + pieces[0]] + pieces[1..])[1..] == pieces[1..];
      assert ([c] + pieces[0]) + [separators[0]] + rest == [c] + (pieces[0] + [separators[0]] + rest);
    }
  }

  lemma {:induction false} PiecesAroundSeparator(isTerm: char -> bool, a: string, separator: char, b: string)
    requires !isTerm(separator)
    ensures Pieces(isTerm, a + [separator] + b) == Pieces(isTerm, a) + Pieces(isTerm, b)
  {
    var text := a + [separator] + b;
    if a == "" {
      assert text[1..] == b;
    } else {
      assert text[1..] == a[1..] + [separator] + b;
      PiecesAroundSeparator(isTerm, a[1..], separator, b);
    }
  }

  lemma {:induction false} OnePiece(isTerm: char -> bool, piece: string)
    requires OnlyTermChars(isTerm, piece)
    ensures Pieces(isTerm, piece) == [piece]
  {
    if piece != "" {
      OnePiece(isTerm, piece[1..]);
      assert [piece[0]] + piece[1..] == piece;
    }
  }

  // ── Terms ─────────────────────────────────────────────────────────────────

  /** The term a piece contributes, if any. */
  function TermOf(piece: string): Option<string> {
    if |piece| < MIN_TERM_CHARS then None
    else
      var term := if |piece| > MAX_TERM_CHARS then piece[..MAX_TERM_CHARS] else piece;
      if term in STOPWORDS then None else Some(term)
  }

  ghost predicate IsTermOf(isTerm: char -> bool, text: string, term: string) {
    exists piece :: piece in Pieces(isTerm, text) && TermOf(piece) == Some(term)
  }

  /** The byte order of the encoded terms, as the ordered set keeps it. */
  predicate TermLess(s: string, t: string) {
    BytesLess(Encode(s), Encode(t))
  }

  ghost predicate StrictlyIncreasing(terms: seq<string>) {
    forall i, j :: 0 <= i < j < |terms| ==> TermLess(terms[i], terms[j])
  }

  /** Insertion into the ordered set. */
  function Insert(terms: seq<string>, term: string): seq<string> {
    if terms == [] then [term]
    else if terms[0] == term then terms
    else if TermLess(term, terms[0]) then [term] + terms
    else [terms[0]] + Insert(terms[1..], term)
  }

  lemma {:induction false} InsertKeepsOrder(terms: seq<string>, term: string)
    requires StrictlyIncreasing(terms)
    ensures StrictlyIncreasing(Insert(terms, term))
    ensures forall t :: t in Insert(terms, term) <==> t in terms || t == term
  {
    if terms != [] && terms[0] != term {
      ByteOrderIsCodePointOrder(term, terms[0]);
      ByteOrderIsCodePointOrder(terms[0], term);
      OrderIsTotal(term, terms[0]);
      if TermLess(term, terms[0]) {
        forall j | 0 < j < |terms| ensures TermLess(term, terms[j]) {
          LessIsTransitive(term, terms[0], terms[j]);
        }
      } else {
        InsertKeepsOrder(terms[1..], term);
        HeadFirst(terms[0], Insert(terms[1..], term));
      }
    }
  }

  lemma HeadFirst(head: string, tail: seq<string>)
    requires StrictlyIncreasing(tail)
    requires forall t :: t in tail ==> TermLess(head, t)
    ensures StrictlyIncreasing([head] + tail)
  {
  }

  lemma LessIsTransitive(s: string, t: string, u: string)
    requires TermLess(s, t) && TermLess(t, u)
    ensures TermLess(s, u)
  {
    ByteOrderIsCodePointOrder(s, t);
    ByteOrderIsCodePointOrder(t, u);
    ByteOrderIsCodePointOrder(s, u);
    OrderIsTransitive(s, t, u);
  }

  function TermsOf(pieces: seq<string>): seq<string> {
    if pieces == [] then []
    else
      var terms := TermsOf(pieces[..|pieces| - 1]);
      match TermOf(pieces[|pieces| - 1])
      case None => terms
      case Some(term) => Insert(terms, term)
  }

  function Tokenize(isTerm: char -> bool, text: string): seq<string> {
    TermsOf(Pieces(isTerm, text))
  }

  method TokenizeTerms(isTerm: char -> bool, normalized: string) returns (terms: seq<string>)
    ensures terms == Tokenize(isTerm, normalized)
  {
    var pieces := Pieces(isTerm, normalized);
    terms := [];
    for next := 0 to |pieces|
      invariant terms == TermsOf(pieces[..next])
    {
      var raw := pieces[next];
      assert pieces[..next + 1][..next] == pieces[..next];
      if |raw| < MIN_TERM_CHARS {
        continue;
      }
      var term := if |raw| > MAX_TERM_CHARS then raw[..MAX_TERM_CHARS] else raw;
      if term in STOPWORDS {
        continue;
      }
      terms := Insert(terms, term);
    }
    assert pieces[..|pieces|] == pieces;
  }

  lemma {:induction false} TermsOfPieces(pieces: seq<string>)
    ensures StrictlyIncreasing(TermsOf(pieces))
    ensures forall t :: t in TermsOf(pieces) <==> exists piece :: piece in pieces && TermOf(piece) == Some(t)
  {
    if pieces != [] {
      var front, last := pieces[..|pieces| - 1], pieces[|pieces| - 1];
      TermsOfPieces(front);
      assert forall piece :: piece in pieces <==> piece in front || piece == last;
      if TermOf(last).Some? {
        InsertKeepsOrder(TermsOf(front), TermOf(last).value);
      }
    }
  }

  /** The result is sorted by bytes without repetition, and holds exactly the terms
      of the text. */
  lemma TokensAreTheTerms(isTerm: char -> bool, text: string)
    ensures StrictlyIncreasing(Tokenize(isTerm, text))
    ensures forall t :: t in Tokenize(isTerm, text) <==> IsTermOf(isTerm, text, t)
  {
    TermsOfPieces(Pieces(isTerm, text));
  }

  /** A stretch of term characters that goes on as far as it can. */
  predicate IsRun(isTerm: char -> bool, text: string, i: nat, j: nat) {
    && i < j <= |text| && OnlyTermChars(isTerm, text[i..j])
    && (i > 0 ==> !isTerm(text[i - 1])) && (j < |text| ==> !isTerm(text[j]))
  }

  /** The first piece is what stands before the first separator. */
  lemma {:induction false} FirstPiece(isTerm: char -> bool, text: string)
    ensures var first := Pieces(isTerm, text)[0];
            && first <= text && OnlyTermChars(isTerm, first)
            && (|first| < |text| ==> !isTerm(text[|first|]))
  {
    if text != "" && isTerm(text[0]) {
      FirstPiece(isTerm, text[1..]);
    }
  }

  lemma RunInFront(isTerm: char -> bool, text: string, j: nat)
    requires j > 0
    ensures IsRun(isTerm, text, 0, j) <==> Pieces(isTerm, text)[0] == text[..if j <= |text| then j else 0]
                                           && j == |Pieces(isTerm, text)[0]|
  {
    FirstPiece(isTerm, text);
    var first := Pieces(isTerm, text)[0];
    if IsRun(isTerm, text, 0, j) {
      assert forall k :: 0 <= k < j ==> text[k] == text[0..j][k] && isTerm(text[k]);
      assert forall k :: 0 <= k < |first| ==> text[k] == first[k] && isTerm(text[k]);
    }
  }

  lemma SliceOneFurther(text: string, i: nat, j: nat)
    requires i <= j < |text|
    ensures text[1..][i..j] == text[i + 1..j + 1]
  {
  }

  lemma RunOneFurther(isTerm: char -> bool, text: string, i: nat, j: nat)
    requires text != "" && i > 0
    ensures IsRun(isTerm, text, i + 1, j + 1) <==> IsRun(isTerm, text[1..], i, j)
  {
    if i < j < |text| {
      assert text[i + 1..j + 1] == text[1..][i..j];
    }
  }

  lemma RunBehindSeparator(isTerm: char -> bool, text: string, j: nat)
    requires text != "" && !isTerm(text[0])
    ensures IsRun(isTerm, text, 1, j + 1) <==> IsRun(isTerm, text[1..], 0, j)
  {
    if 0 < j < |text| {
      assert text[1..j + 1] == text[1..][0..j];
    }
  }

  predicate IsRunOf(isTerm: char -> bool, text: string, piece: string, i: nat, j: nat) {
    IsRun(isTerm, text, i, j) && piece == text[i..j]
  }

  ghost predicate IsLaterRun(isTerm: char -> bool, text: string, piece: string) {
    exists i: nat, j: nat :: 0 < i && IsRunOf(isTerm, text, piece, i, j)
  }

  ghost predicate IsAnyRun(isTerm: char -> bool, text: string, piece: string) {
    exists i: nat, j: nat :: IsRunOf(isTerm, text, piece, i, j)
  }

  lemma LaterRunsAfterTermChar(isTerm: char -> bool, text: string, piece: string)
    requires text != "" && isTerm(text[0])
    ensures IsLaterRun(isTerm, text, piece) <==> IsLaterRun(isTerm, text[1..], piece)
  {
    if i: nat, j: nat :| 0 < i && IsRunOf(isTerm, text, piece, i, j) {
      assert i > 1;
      RunOneFurther(isTerm, text, i - 1, j - 1);
      SliceOneFurther(text, i - 1, j - 1);
      assert IsRunOf(isTerm, text[1..], piece, i - 1, j - 1);
    }
    if i: nat, j: nat :| 0 < i && IsRunOf(isTerm, text[1..], piece, i, j) {
      RunOneFurther(isTerm, text, i, j);
      SliceOneFurther(text, i, j);
      assert IsRunOf(isTerm, text, piece, i + 1, j + 1);
    }
  }

  lemma LaterRunsAfterSeparator(isTerm: char -> bool, text: string, piece: string)
    requires text != "" && !isTerm(text[0])
    ensures IsLaterRun(isTerm, text, piece) <==> IsAnyRun(isTerm, text[1..], piece)
  {
    if i: nat, j: nat :| 0 < i && IsRunOf(isTerm, text, piece, i, j) {
      if i == 1 { RunBehindSeparator(isTerm, text, j - 1); } else { RunOneFurther(isTerm, text, i - 1, j - 1); }
      SliceOneFurther(text, i - 1, j - 1);
      assert IsRunOf(isTerm, text[1..], piece, i - 1, j - 1);
    }
    if i: nat, j: nat :| IsRunOf(isTerm, text[1..], piece, i, j) {
      if i == 0 { RunBehindSeparator(isTerm, text, j); } else { RunOneFurther(isTerm, text, i, j); }
      SliceOneFurther(text, i, j);
      assert IsRunOf(isTerm, text, piece, i + 1, j + 1);
    }
  }

  lemma {:induction false} LaterPiecesAreRuns(isTerm: char -> bool, text: string, piece: string)
    requires piece != ""
    ensures piece in Pieces(isTerm, text)[1..] <==> IsLaterRun(isTerm, text, piece)
  {
    if text != "" {
      LaterPiecesAreRuns(isTerm, text[1..], piece);
      var later := Pieces(isTerm, text[1..]);
      if isTerm(text[0]) {
        LaterRunsAfterTermChar(isTerm, text, piece);
        assert Pieces(isTerm, text)[1..] == later[1..];
      } else {
        LaterRunsAfterSeparator(isTerm, text, piece);
        FirstOrLaterRun(isTerm, text[1..], piece);
        assert Pieces(isTerm, text)[1..] == later;
        assert piece in later <==> piece == later[0] || piece in later[1..];
      }
    }
  }

  lemma FirstOrLaterRun(isTerm: char -> bool, text: string, piece: string)
    requires piece != ""
    ensures IsAnyRun(isTerm, text, piece) <==> piece == Pieces(isTerm, text)[0] || IsLaterRun(isTerm, text, piece)
  {
    FirstPiece(isTerm, text);
    if i: nat, j: nat :| IsRunOf(isTerm, text, piece, i, j) {
      if i == 0 {
        RunInFront(isTerm, text, j);
        assert text[..j] == text[0..j];
      }
    }
    if piece == Pieces(isTerm, text)[0] {
      RunInFront(isTerm, text, |piece|);
      assert IsRunOf(isTerm, text, piece, 0, |piece|);
    }
  }

  lemma PiecesAreRuns(isTerm: char -> bool, text: string, piece: string)
    requires piece != ""
    ensures piece in Pieces(isTerm, text) <==> IsAnyRun(isTerm, text, piece)
  {
    var pieces := Pieces(isTerm, text);
    LaterPiecesAreRuns(isTerm, text, piece);
    FirstOrLaterRun(isTerm, text, piece);
    assert piece in pieces <==> piece == pieces[0] || piece in pieces[1..];
  }

  /** The first 64 characters of a run of at least two. */
  ghost predicate IsCutOf(isTerm: char -> bool, text: string, term: string, i: nat, j: nat) {
    IsRun(isTerm, text, i, j) && j - i >= 2 && term == text[i..if j - i > 64 then i + 64 else j]
  }

  /** The tokens, on the text itself: the first 64 characters of each longest run of at
      least two term characters, unless those are a stopword. */
  lemma TokensAreTheRuns(isTerm: char -> bool, text: string, term: string)
    ensures term in Tokenize(isTerm, text)
       <==> term !in STOPWORDS && exists i: nat, j: nat :: IsCutOf(isTerm, text, term, i, j)
  {
    TokensAreTheTerms(isTerm, text);
    if term in Tokenize(isTerm, text) {
      var piece :| piece in Pieces(isTerm, text) && TermOf(piece) == Some(term);
      TermIsACut(isTerm, text, piece, term);
    }
    if i: nat, j: nat :| IsCutOf(isTerm, text, term, i, j) && term !in STOPWORDS {
      CutIsATerm(isTerm, text, term, i, j);
    }
  }

  lemma TermIsACut(isTerm: char -> bool, text: string, piece: string, term: string)
    requires piece in Pieces(isTerm, text) && TermOf(piece) == Some(term)
    ensures term !in STOPWORDS && exists i: nat, j: nat :: IsCutOf(isTerm, text, term, i, j)
  {
    PiecesAreRuns(isTerm, text, piece);
    var i: nat, j: nat :| IsRunOf(isTerm, text, piece, i, j);
    CutOfPiece(text, i, j);
    assert IsCutOf(isTerm, text, term, i, j);
  }

  lemma CutIsATerm(isTerm: char -> bool, text: string, term: string, i: nat, j: nat)
    requires IsCutOf(isTerm, text, term, i, j) && term !in STOPWORDS
    ensures text[i..j] in Pieces(isTerm, text) && TermOf(text[i..j]) == Some(term)
  {
    assert IsRunOf(isTerm, text, text[i..j], i, j);
    PiecesAreRuns(isTerm, text, text[i..j]);
    CutOfPiece(text, i, j);
  }

  lemma CutOfPiece(text: string, i: nat, j: nat)
    requires i < j <= |text|
    ensures j - i > 64 ==> text[i..j][..64] == text[i..i + 64]
  {
  }

  predicate WellFormedTerm(isTerm: char -> bool, term: string) {
    && MIN_TERM_CHARS <= |term| <= MAX_TERM_CHARS
    && OnlyTermChars(isTerm, term)
    && term !in STOPWORDS
  }

  lemma TermsAreWellFormed(isTerm: char -> bool, text: string, term: string)
    requires term in Tokenize(isTerm, text)
    ensures WellFormedTerm(isTerm, term)
  {
    TokensAreTheTerms(isTerm, text);
    PiecesAreTheText(isTerm, text);
    var pieces := Pieces(isTerm, text);
    var piece :| piece in pieces && TermOf(piece) == Some(term);
    var i :| 0 <= i < |pieces| && pieces[i] == piece;
    assert OnlyTermChars(isTerm, pieces[i]);
  }

  /** A strictly increasing list is determined by what is in it. */
  lemma {:induction false} SortedListsAgree(a: seq<string>, b: seq<string>)
    requires StrictlyIncreasing(a) && StrictlyIncreasing(b)
    requires forall t :: t in a <==> t in b
    ensures a == b
  {
    assert a != [] ==> a[0] in a;
    assert b != [] ==> b[0] in b;
    if a != [] {
      LeastIsFirst(a, b);
      assert forall t :: t in a[1..] <==> t in a && t != a[0] by { HeadIsNotInTail(a); }
      assert forall t :: t in b[1..] <==> t in b && t != b[0] by { HeadIsNotInTail(b); }
      SortedListsAgree(a[1..], b[1..]);
      assert [a[0]] + a[1..] == a && [b[0]] + b[1..] == b;
    }
  }

  lemma HeadIsNotInTail(a: seq<string>)
    requires a != [] && StrictlyIncreasing(a)
    ensures forall t :: t in a[1..] <==> t in a && t != a[0]
  {
    forall i | 0 < i < |a| ensures a[i] != a[0] {
      NotLessThanItself(a[0]);
      assert TermLess(a[0], a[i]);
    }
    forall t | t in a && t != a[0] ensures t in a[1..] {
      var i :| 0 <= i < |a| && a[i] == t;
      assert a[1..][i - 1] == t;
    }
  }

  lemma NotLessThanItself(s: string)
    ensures !TermLess(s, s)
  {
    ByteOrderIsCodePointOrder(s, s);
    OrderIsTotal(s, s);
  }

  lemma LeastIsFirst(a: seq<string>, b: seq<string>)
    requires a != [] && b != [] && StrictlyIncreasing(a) && StrictlyIncreasing(b)
    requires a[0] in b && b[0] in a
    ensures a[0] == b[0]
  {
    if a[0] != b[0] {
      var i :| 0 <= i < |b| && b[i] == a[0];
      var j :| 0 <= j < |a| && a[j] == b[0];
      assert TermLess(b[0], b[i]) && TermLess(a[0], a[j]);
      LessIsTransitive(a[0], b[0], a[0]);
      NotLessThanItself(a[0]);
    }
  }

  // ── The algebra ───────────────────────────────────────────────────────────

  /** Tokenizing two texts with a separator between them is the union. */
  lemma TokensOfBoth(isTerm: char -> bool, a: string, separator: char, b: string, term: string)
    requires !isTerm(separator)
    ensures term in Tokenize(isTerm, a + [separator] + b)
       <==> term in Tokenize(isTerm, a) || term in Tokenize(isTerm, b)
  {
    PiecesAroundSeparator(isTerm, a, separator, b);
    TokensAreTheTerms(isTerm, a + [separator] + b);
    TokensAreTheTerms(isTerm, a);
    TokensAreTheTerms(isTerm, b);
  }

  function Join(words: seq<string>, separator: string): string {
    if words == [] then ""
    else if |words| == 1 then words[0]
    else words[0] + separator + Join(words[1..], separator)
  }

  lemma {:induction false} PiecesOfJoined(isTerm: char -> bool, words: seq<string>)
    requires !isTerm(' ') && words != []
    requires forall word :: word in words ==> OnlyTermChars(isTerm, word)
    ensures Pieces(isTerm, Join(words, " ")) == words
    decreases |words|
  {
    OnePiece(isTerm, words[0]);
    if |words| > 1 {
      PiecesOfJoined(isTerm, words[1..]);
      PiecesAroundSeparator(isTerm, words[0], ' ', Join(words[1..], " "));
    }
  }

  /** Tokenizing the joined tokens returns them unchanged. */
  lemma TokenizingIsIdempotent(isTerm: char -> bool, text: string)
    requires !isTerm(' ')
    ensures Tokenize(isTerm, Join(Tokenize(isTerm, text), " ")) == Tokenize(isTerm, text)
  {
    var tokens := Tokenize(isTerm, text);
    if tokens == [] {
      assert TermsOf([""][..0]) == [];
    } else {
      forall t | t in tokens ensures WellFormedTerm(isTerm, t) && TermOf(t) == Some(t) {
        TermsAreWellFormed(isTerm, text, t);
      }
      PiecesOfJoined(isTerm, tokens);
      TokensAreTheTerms(isTerm, text);
      TermsOfPieces(tokens);
      SortedListsAgree(TermsOf(tokens), tokens);
    }
  }

  // ── Full-text tokens ──────────────────────────────────────────────────────

  predicate IsHexDigit(c: char) {
    '0' <= c <= '9' || 'a' <= c <= 'f'
  }

  /** The bare token of a term: 32 lower-case hexadecimal digits. */
  predicate IsToken(token: string) {
    |token| == 32 && forall i :: 0 <= i < |token| ==> IsHexDigit(token[i])
  }

  ghost predicate IsMac(mac: string -> string) {
    forall term :: IsToken(mac(term))
  }

  function TermTokens(mac: string -> string, terms: seq<string>): (tokens: seq<string>)
    ensures |tokens| == |terms| && forall i :: 0 <= i < |terms| ==> tokens[i] == mac(terms[i])
  {
    seq(|terms|, i requires 0 <= i < |terms| => mac(terms[i]))
  }

  function FtsDocument(mac: string -> string, isTerm: char -> bool, text: string): string {
    Join(TermTokens(mac, Tokenize(isTerm, text)), " ")
  }

  function FtsQuery(mac: string -> string, isTerm: char -> bool, query: string): Option<string> {
    var tokens := TermTokens(mac, Tokenize(isTerm, query));
    if tokens == [] then None else Some(Join(tokens, " AND "))
  }

  // ── What the index does with them ─────────────────────────────────────────

  predicate NotSpace(c: char) {
    c != ' '
  }

  /** The words of a document or an expression. */
  function Words(s: string): seq<string> {
    Pieces(NotSpace, s)
  }

  /** An expression `w AND w AND …` matches a document that has all its words. */
  predicate Matches(expression: string, document: string) {
    forall word :: word in Words(expression) && word != "AND" ==> word in Words(document)
  }

  lemma {:induction false} WordsOfQuery(tokens: seq<string>, word: string)
    requires tokens != [] && forall token :: token in tokens ==> OnlyTermChars(NotSpace, token) && token != "AND"
    ensures word in Words(Join(tokens, " AND ")) && word != "AND" <==> word in tokens
    decreases |tokens|
  {
    OnePiece(NotSpace, tokens[0]);
    if |tokens| > 1 {
      var rest := Join(tokens[1..], " AND ");
      WordsOfQuery(tokens[1..], word);
      OnePiece(NotSpace, "AND");
      PiecesAroundSeparator(NotSpace, "AND", ' ', rest);
      PiecesAroundSeparator(NotSpace, tokens[0], ' ', "AND" + [' '] + rest);
      assert tokens[0] + " AND " + rest == tokens[0] + [' '] + ("AND" + [' '] + rest);
      assert Words(Join(tokens, " AND ")) == [tokens[0]] + (["AND"] + Words(rest));
    }
  }

  lemma TokensAreWords(mac: string -> string, terms: seq<string>, token: string)
    requires IsMac(mac) && token in TermTokens(mac, terms)
    ensures OnlyTermChars(NotSpace, token) && token != "AND"
  {
    assert IsToken(token);
  }

  lemma WordsOfDocument(mac: string -> string, isTerm: char -> bool, text: string, word: string)
    requires IsMac(mac) && word != ""
    ensures word in Words(FtsDocument(mac, isTerm, text)) <==> word in TermTokens(mac, Tokenize(isTerm, text))
  {
    var tokens := TermTokens(mac, Tokenize(isTerm, text));
    forall token | token in tokens ensures OnlyTermChars(NotSpace, token) {
      TokensAreWords(mac, Tokenize(isTerm, text), token);
    }
    if tokens != [] {
      PiecesOfJoined(NotSpace, tokens);
    }
  }

  lemma QueryMatchesByTokens(mac: string -> string, isTerm: char -> bool, query: string, text: string)
    requires IsMac(mac)
    ensures FtsQuery(mac, isTerm, query).None? <==> Tokenize(isTerm, query) == []
    ensures FtsQuery(mac, isTerm, query).Some? ==>
              (Matches(FtsQuery(mac, isTerm, query).value, FtsDocument(mac, isTerm, text))
               <==> forall token :: token in TermTokens(mac, Tokenize(isTerm, query))
                                    ==> token in TermTokens(mac, Tokenize(isTerm, text)))
  {
    var tokens := TermTokens(mac, Tokenize(isTerm, query));
    if tokens != [] {
      forall token | token in tokens ensures OnlyTermChars(NotSpace, token) && token != "AND" && token != "" {
        TokensAreWords(mac, Tokenize(isTerm, query), token);
      }
      var expression := Join(tokens, " AND ");
      forall word ensures word in Words(expression) && word != "AND" <==> word in tokens {
        WordsOfQuery(tokens, word);
      }
      forall word | word in tokens
        ensures word in Words(FtsDocument(mac, isTerm, text)) <==> word in TermTokens(mac, Tokenize(isTerm, text))
      {
        WordsOfDocument(mac, isTerm, text, word);
      }
    }
  }

  /** No term of the query shares its token with another term of the text. */
  ghost predicate NoCollision(mac: string -> string, queryTerms: seq<string>, terms: seq<string>) {
    forall t, u :: t in queryTerms && u in terms && mac(t) == mac(u) ==> t == u
  }

  /** A query finds a text exactly when it has a term and the text has all of its
      terms; a query of stopwords finds nothing. */
  lemma QueryFindsExactlyItsTerms(mac: string -> string, isTerm: char -> bool, query: string, text: string)
    requires IsMac(mac)
    requires NoCollision(mac, Tokenize(isTerm, query), Tokenize(isTerm, text))
    ensures (&& FtsQuery(mac, isTerm, query).Some?
             && Matches(FtsQuery(mac, isTerm, query).value, FtsDocument(mac, isTerm, text)))
       <==> (&& Tokenize(isTerm, query) != []
             && forall t :: t in Tokenize(isTerm, query) ==> t in Tokenize(isTerm, text))
  {
    QueryMatchesByTokens(mac, isTerm, query, text);
    var wanted, terms := Tokenize(isTerm, query), Tokenize(isTerm, text);
    forall t | t in wanted
      ensures mac(t) in TermTokens(mac, wanted)
      ensures mac(t) in TermTokens(mac, terms) <==> t in terms
    {
      var i :| 0 <= i < |wanted| && wanted[i] == t;
      assert TermTokens(mac, wanted)[i] == mac(t);
      TokenIsInList(mac, terms, t);
    }
    forall token | token in TermTokens(mac, wanted) ensures exists t :: t in wanted && mac(t) == token {
      var i :| 0 <= i < |wanted| && TermTokens(mac, wanted)[i] == token;
      assert wanted[i] in wanted;
    }
  }

  lemma TokenIsInList(mac: string -> string, terms: seq<string>, term: string)
    requires forall u :: u in terms && mac(term) == mac(u) ==> term == u
    ensures mac(term) in TermTokens(mac, terms) <==> term in terms
  {
    if term in terms {
      var i :| 0 <= i < |terms| && terms[i] == term;
      assert TermTokens(mac, terms)[i] == mac(term);
    }
  }
}
