/** Command lines that users paste into a POSIX shell, read back the way the shell reads them. */
module ShellPrompt {
  import opened Text

  // ---- Token recognition -----------------------------------------------------------------------

  datatype Token = Word(text: string) | Pipe

  /** `started` tells whether the word that the backslash interrupts had begun. */
  datatype Mode =
    | Between
    | Bare(word: string)
    | Single(word: string)
    | Escaped(word: string, started: bool)

  predicate IsBlank(c: char) { c == ' ' || c == '\t' }

  /** Characters that stand for themselves wherever they appear unquoted. */
  predicate IsPlain(c: char) {
    'a' <= c <= 'z' || 'A' <= c <= 'Z' || '0' <= c <= '9' || c == '-' || c == '_' || c == '.' || c == '/'
  }

  function Emit(token: Token, rest: Option<seq<Token>>): Option<seq<Token>> {
    match rest
    case None => None
    case Some(tokens) => Some([token] + tokens)
  }

  /** Sections 2.2.1, 2.2.2 and 2.3 of the Shell Command Language, IEEE Std 1003.1-2017. None when the
      input is incomplete, holds a NUL, or uses an unquoted character outside this fragment. */
  function Lex(s: string, mode: Mode): Option<seq<Token>>
    decreases |s|, 0
  {
    if s == "" then
      match mode
      case Between => Some([])
      case Bare(w) => Some([Word(w)])
      case _ => None
    else
      var c, rest := s[0], s[1..];
      if c == '\0' then None
      else match mode
      case Between =>
        if IsBlank(c) then Lex(rest, Between)
        else if c == '|' then LexPipe(rest)
        else if c == '\'' then Lex(rest, Single(""))
        else if c == '\\' then Lex(rest, Escaped("", false))
        else if IsPlain(c) then Lex(rest, Bare([c]))
        else None
      case Bare(w) =>
        if IsBlank(c) then Emit(Word(w), Lex(rest, Between))
        else if c == '|' then Emit(Word(w), LexPipe(rest))
        else if c == '\'' then Lex(rest, Single(w))
        else if c == '\\' then Lex(rest, Escaped(w, true))
        else if IsPlain(c) then Lex(rest, Bare(w + [c]))
        else None
      case Single(w) => if c == '\'' then Lex(rest, Bare(w)) else Lex(rest, Single(w + [c]))
      case Escaped(w, started) =>
        if c == '\n' then Lex(rest, if started then Bare(w) else Between)
        else Lex(rest, Bare(w + [c]))
  }

  /** After a bar; two of them would be a different operator. */
  function LexPipe(rest: string): Option<seq<Token>>
    decreases |rest|, 1
  {
    if rest != "" && rest[0] == '|' then None else Emit(Pipe, Lex(rest, Between))
  }

  // ---- Quoting -----------------------------------------------------------------------------------

  /** `value.replaceAll("'", "'\\''")`. */
  function EscapeQuotes(value: string): string {
    if value == "" then ""
    else (if value[0] == '\'' then ['\'', '\\', '\'', '\''] else [value[0]]) + EscapeQuotes(value[1..])
  }

  function ShellQuote(value: string): string {
    ['\''] + EscapeQuotes(value) + ['\'']
  }

  lemma LexSingle(c: char, rest: string, w: string)
    ensures c != '\'' && c != '\0' ==> Lex([c] + rest, Single(w)) == Lex(rest, Single(w + [c]))
    ensures c == '\'' ==> Lex([c] + rest, Single(w)) == Lex(rest, Bare(w))
    ensures c == '\0' ==> Lex([c] + rest, Single(w)) == None
  {
    assert ([c] + rest)[1..] == rest;
  }

  /** The four characters written for a quote add that quote and stay inside quotes. */
  lemma LexQuoteMark(rest: string, w: string)
    ensures Lex(['\'', '\\', '\'', '\''] + rest, Single(w)) == Lex(rest, Single(w + ['\'']))
  {
    var s := ['\'', '\\', '\'', '\''] + rest;
    assert s[1..][0] == '\\' && s[1..][1..][0] == '\'' && s[1..][1..][1..][0] == '\'';
    assert s[1..][1..][1..][1..] == rest;
    calc {
      Lex(s, Single(w));
      Lex(s[1..], Bare(w));
      Lex(s[1..][1..], Escaped(w, true));
      Lex(s[1..][1..][1..], Bare(w + ['\'']));
      Lex(rest, Single(w + ['\'']));
    }
  }

  lemma {:induction false} LexEscaped(value: string, rest: string, w: string)
    ensures Lex(EscapeQuotes(value) + ['\''] + rest, Single(w))
         == if '\0' in value then None else Lex(rest, Bare(w + value))
  {
    if value == "" {
      assert EscapeQuotes(value) + ['\''] + rest == ['\''] + rest;
      LexSingle('\'', rest, w);
      assert w + value == w;
    } else {
      var c, tail := value[0], value[1..];
      var more := EscapeQuotes(tail) + ['\''] + rest;
      assert value == [c] + tail;
      assert w + [c] + tail == w + value;
      if c == '\'' {
        assert EscapeQuotes(value) + ['\''] + rest == ['\'', '\\', '\'', '\''] + more;
        LexQuoteMark(more, w);
      } else {
        assert EscapeQuotes(value) + ['\''] + rest == [c] + more;
        LexSingle(c, more, w);
      }
      LexEscaped(tail, rest, w + [c]);
    }
  }

  /** A quoted value is read as part of one word, unchanged, whatever follows it. */
  lemma LexQuoted(value: string, rest: string)
    ensures Lex(ShellQuote(value) + rest, Between) == if '\0' in value then None else Lex(rest, Bare(value))
  {
    var s := ShellQuote(value) + rest;
    assert s[1..] == EscapeQuotes(value) + ['\''] + rest;
    LexEscaped(value, rest, "");
    assert "" + value == value;
  }

  /** Quoting reads back as exactly the one word that was quoted, for every value a shell can hold. */
  lemma QuoteRoundTrip(value: string)
    ensures Lex(ShellQuote(value), Between) == Some([Word(value)]) <==> '\0' !in value
  {
    LexQuoted(value, "");
    assert ShellQuote(value) + "" == ShellQuote(value);
  }

  // ---- Command lines -------------------------------------------------------------------------------

  /** What a command line is built from, separated by single spaces. */
  datatype Piece = Literal(text: string) | Quoted(value: string) | Bar

  function Render(p: Piece): string {
    match p
    case Literal(text) => text
    case Quoted(value) => ShellQuote(value)
    case Bar => "|"
  }

  function Renders(pieces: seq<Piece>): seq<string> {
    seq(|pieces|, i requires 0 <= i < |pieces| => Render(pieces[i]))
  }

  function RenderAll(pieces: seq<Piece>): string {
    Join(Renders(pieces), ' ')
  }

  function Meaning(p: Piece): Token {
    match p
    case Literal(text) => Word(text)
    case Quoted(value) => Word(value)
    case Bar => Pipe
  }

  function MeaningAll(pieces: seq<Piece>): seq<Token> {
    seq(|pieces|, i requires 0 <= i < |pieces| => Meaning(pieces[i]))
  }

  predicate Readable(p: Piece) {
    match p
    case Literal(text) => text != "" && forall i :: 0 <= i < |text| ==> IsPlain(text[i])
    case Quoted(value) => true
    case Bar => true
  }

  predicate HasNul(p: Piece) { p.Quoted? && '\0' in p.value }

  lemma {:induction false} LexPlain(text: string, rest: string, w: string)
    requires forall i :: 0 <= i < |text| ==> IsPlain(text[i])
    ensures Lex(text + rest, Bare(w)) == Lex(rest, Bare(w + text))
  {
    if text == "" {
      assert text + rest == rest;
      assert w + text == w;
    } else {
      assert (text + rest)[1..] == text[1..] + rest;
      LexPlain(text[1..], rest, w + [text[0]]);
      assert w + [text[0]] + text[1..] == w + text;
    }
  }

  lemma LexLiteral(text: string, rest: string)
    requires text != "" && forall i :: 0 <= i < |text| ==> IsPlain(text[i])
    ensures Lex(text + rest, Between) == Lex(rest, Bare(text))
  {
    var s := text + rest;
    assert s[0] == text[0] && s[1..] == text[1..] + rest;
    assert IsPlain(s[0]);
    assert Lex(s, Between) == Lex(s[1..], Bare([s[0]]));
    LexPlain(text[1..], rest, [text[0]]);
    assert [text[0]] + text[1..] == text;
  }

  lemma LexSpaced(rest: string, w: string)
    ensures Lex([' '] + rest, Bare(w)) == Emit(Word(w), Lex(rest, Between))
  {
    assert ([' '] + rest)[1..] == rest;
  }

  /** One piece, followed by a space. */
  lemma LexPiece(p: Piece, rest: string)
    requires Readable(p)
    ensures Lex(Render(p) + [' '] + rest, Between) == if HasNul(p) then None else Emit(Meaning(p), Lex(rest, Between))
  {
    var more := [' '] + rest;
    assert Render(p) + [' '] + rest == Render(p) + more;
    match p {
      case Literal(text) =>
        LexLiteral(text, more);
        LexSpaced(rest, text);
      case Quoted(value) =>
        LexQuoted(value, more);
        LexSpaced(rest, value);
      case Bar =>
        LexBar(rest);
    }
  }

  lemma LexBar(rest: string)
    ensures Lex("|" + ([' '] + rest), Between) == Emit(Pipe, Lex(rest, Between))
  {
    assert ("|" + ([' '] + rest))[1..] == [' '] + rest;
    assert ([' '] + rest)[1..] == rest;
    assert Lex([' '] + rest, Between) == Lex(rest, Between);
  }

  lemma LexBarAlone()
    ensures Lex("|", Between) == Some([Pipe])
  {
    assert "|"[1..] == "";
    assert [Pipe] + [] == [Pipe];
  }

  lemma LexLastPiece(p: Piece)
    requires Readable(p)
    ensures Lex(Render(p), Between) == if HasNul(p) then None else Some([Meaning(p)])
  {
    match p {
      case Literal(text) =>
        LexLiteral(text, "");
        assert text + "" == text;
      case Quoted(value) =>
        LexQuoted(value, "");
        assert ShellQuote(value) + "" == ShellQuote(value);
      case Bar =>
        LexBarAlone();
    }
  }

  /** A line built from plain words, quoted values and bars is read as exactly those pieces, unless some
      quoted value holds a NUL, in which case no shell can read it. */
  lemma {:induction false} LexLine(pieces: seq<Piece>)
    requires pieces != [] && forall i :: 0 <= i < |pieces| ==> Readable(pieces[i])
    ensures Lex(RenderAll(pieces), Between)
         == if exists i :: 0 <= i < |pieces| && HasNul(pieces[i]) then None else Some(MeaningAll(pieces))
  {
    if |pieces| == 1 {
      LexLastPiece(pieces[0]);
      assert MeaningAll(pieces) == [Meaning(pieces[0])];
    } else {
      var rest := pieces[1..];
      assert Renders(pieces)[1..] == Renders(rest);
      assert MeaningAll(pieces) == [Meaning(pieces[0])] + MeaningAll(rest);
      LexPiece(pieces[0], RenderAll(rest));
      LexLine(rest);
      if i :| 0 <= i < |pieces| && HasNul(pieces[i]) {
        if i > 0 {
          assert HasNul(rest[i - 1]);
        }
      } else {
        assert forall i :: 0 <= i < |rest| ==> !HasNul(rest[i]);
      }
    }
  }

  // ---- Profile slugs -------------------------------------------------------------------------------

  predicate IsSlugChar(c: char) { 'a' <= c <= 'z' || '0' <= c <= '9' }

  /** Drops the leading characters that do not belong in a slug. */
  function SkipOthers(s: string): (r: string)
    ensures |r| <= |s|
  {
    if s != "" && !IsSlugChar(s[0]) then SkipOthers(s[1..]) else s
  }

  /** `replaceAll(/[^a-z0-9]+/g, '-')`: every maximal run of other characters becomes one hyphen. */
  function Collapse(s: string): string
    decreases |s|
  {
    if s == "" then ""
    else if IsSlugChar(s[0]) then [s[0]] + Collapse(s[1..])
    else ['-'] + Collapse(SkipOthers(s[1..]))
  }

  function DropLeading(s: string): string {
    if s != "" && s[0] == '-' then DropLeading(s[1..]) else s
  }

  function DropTrailing(s: string): string {
    if s != "" && s[|s| - 1] == '-' then DropTrailing(s[..|s| - 1]) else s
  }

  function OrElse(s: string, other: string): string {
    if s == "" then other else s
  }

  /** `lower` stands for the host's `toLowerCase`. */
  function Slug(lower: string -> string, name: string): string {
    OrElse(DropTrailing(DropLeading(Collapse(lower(name)))), "folder")
  }

  /** Non-empty, of the characters a-z, 0-9 and single hyphens, with no hyphen at either end. */
  ghost predicate Canonical(s: string) {
    && s != "" && s[0] != '-' && s[|s| - 1] != '-'
    && (forall i :: 0 <= i < |s| ==> IsSlugChar(s[i]) || s[i] == '-')
    && forall i :: 0 <= i < |s| - 1 && s[i] == '-' ==> IsSlugChar(s[i + 1])
  }

  /** What `Collapse` yields: slug characters and isolated hyphens. */
  ghost predicate Loose(s: string) {
    && (forall i :: 0 <= i < |s| ==> IsSlugChar(s[i]) || s[i] == '-')
    && forall i :: 0 <= i < |s| - 1 && s[i] == '-' ==> IsSlugChar(s[i + 1])
  }

  lemma {:induction false} SkipOthersStops(s: string)
    ensures SkipOthers(s) == "" || IsSlugChar(SkipOthers(s)[0])
    ensures s != "" && IsSlugChar(s[0]) ==> SkipOthers(s) == s
  {
    if s != "" && !IsSlugChar(s[0]) {
      SkipOthersStops(s[1..]);
    }
  }

  lemma {:induction false} CollapseIsLoose(s: string)
    ensures Loose(Collapse(s))
    ensures s == "" <==> Collapse(s) == ""
    ensures s != "" && IsSlugChar(s[0]) ==> Collapse(s) != "" && Collapse(s)[0] == s[0]
    decreases |s|
  {
    if s != "" {
      if IsSlugChar(s[0]) {
        CollapseIsLoose(s[1..]);
        LooseCons(s[0], Collapse(s[1..]));
      } else {
        SkipOthersStops(s[1..]);
        CollapseIsLoose(SkipOthers(s[1..]));
        LooseCons('-', Collapse(SkipOthers(s[1..])));
      }
    }
  }

  lemma LooseCons(c: char, s: string)
    requires Loose(s) && (IsSlugChar(c) || (c == '-' && (s == "" || IsSlugChar(s[0]))))
    ensures Loose([c] + s)
  {
    var t := [c] + s;
    forall i | 0 <= i < |t| - 1 && t[i] == '-' ensures IsSlugChar(t[i + 1]) {
      if i > 0 {
        assert t[i] == s[i - 1] && t[i + 1] == s[i];
      }
    }
  }

  lemma {:induction false} DropsKeepLoose(s: string)
    requires Loose(s)
    ensures Loose(DropLeading(s)) && (DropLeading(s) == "" || DropLeading(s)[0] != '-')
    ensures Loose(DropTrailing(s)) && (DropTrailing(s) == "" || DropTrailing(s)[|DropTrailing(s)| - 1] != '-')
    ensures DropTrailing(s) <= s
    decreases |s|
  {
    if s != "" && s[0] == '-' {
      TailLoose(s);
      DropsKeepLoose(s[1..]);
    }
    if s != "" && s[|s| - 1] == '-' {
      assert Loose(s[..|s| - 1]);
      DropsKeepLoose(s[..|s| - 1]);
    }
  }

  lemma TailLoose(s: string)
    requires Loose(s) && s != ""
    ensures Loose(s[1..])
  {
    var t := s[1..];
    forall i | 0 <= i < |t| - 1 && t[i] == '-' ensures IsSlugChar(t[i + 1]) {
      assert s[i + 1] == t[i] && s[i + 2] == t[i + 1];
    }
  }

  /** The slug of any name whatsoever is canonical. */
  lemma SlugCanonical(lower: string -> string, name: string)
    ensures Canonical(Slug(lower, name))
  {
    var c := Collapse(lower(name));
    CollapseIsLoose(lower(name));
    DropsKeepLoose(c);
    DropsKeepLoose(DropLeading(c));
  }

  lemma {:induction false} CollapseFixed(s: string)
    requires Loose(s)
    ensures Collapse(s) == s
  {
    if s != "" {
      TailLoose(s);
      CollapseFixed(s[1..]);
      if !IsSlugChar(s[0]) {
        SkipOthersStops(s[1..]);
        assert s[1..] == "" || IsSlugChar(s[1..][0]);
      }
      assert s == [s[0]] + s[1..];
    }
  }

  lemma SlugFixed(lower: string -> string, name: string)
    requires Canonical(name) && lower(name) == name
    ensures Slug(lower, name) == name
  {
    CollapseFixed(name);
  }

  /** A canonical name is its own slug, so slugs can be taken again without harm. */
  lemma SlugIdempotent(lower: string -> string, name: string)
    requires forall s :: Canonical(s) ==> lower(s) == s
    ensures Slug(lower, Slug(lower, name)) == Slug(lower, name)
    ensures Canonical(name) ==> Slug(lower, name) == name
  {
    SlugCanonical(lower, name);
    SlugFixed(lower, Slug(lower, name));
    if Canonical(name) {
      SlugFixed(lower, name);
    }
  }

  /** The maximal runs of slug characters. */
  function Words(s: string): seq<string>
    decreases |s|
  {
    if s == "" then []
    else if !IsSlugChar(s[0]) then Words(s[1..])
    else
      var rest := Words(s[1..]);
      if |s| > 1 && IsSlugChar(s[1]) && rest != [] then [[s[0]] + rest[0]] + rest[1..] else [[s[0]]] + rest
  }

  predicate EndsOpen(s: string) { s != "" && !IsSlugChar(s[|s| - 1]) }
  predicate StartsOpen(s: string) { s != "" && !IsSlugChar(s[0]) }

  function Hyphen(b: bool): string { if b then ['-'] else "" }

  lemma {:induction false} WordsSkip(s: string)
    ensures Words(SkipOthers(s)) == Words(s)
    ensures SkipOthers(s) != "" ==> EndsOpen(SkipOthers(s)) == EndsOpen(s)
  {
    if s != "" && !IsSlugChar(s[0]) {
      WordsSkip(s[1..]);
    }
  }

  predicate IsWord(w: string) {
    w != "" && forall j :: 0 <= j < |w| ==> IsSlugChar(w[j])
  }

  lemma {:induction false} WordsAreWords(s: string)
    ensures forall i :: 0 <= i < |Words(s)| ==> IsWord(Words(s)[i])
  {
    if s != "" {
      WordsAreWords(s[1..]);
    }
  }

  lemma WordsStart(s: string)
    requires s != "" && IsSlugChar(s[0])
    ensures Words(s) != []
  {
  }

  /** Words between hyphens, with a hyphen before or after where the text starts or ends outside a word. */
  function Shape(lead: bool, words: seq<string>, trail: bool): string {
    Hyphen(lead) + Join(words, '-') + Hyphen(trail)
  }

  lemma ShapeGrows(c: char, words: seq<string>, trail: bool)
    requires words != []
    ensures [c] + Shape(false, words, trail) == Shape(false, [[c] + words[0]] + words[1..], trail)
  {
    assert ([[c] + words[0]] + words[1..])[1..] == words[1..];
    assert Join([[c] + words[0]] + words[1..], '-') == [c] + Join(words, '-');
  }

  lemma ShapeLeads(words: seq<string>, trail: bool)
    ensures ['-'] + Shape(false, words, trail) == Shape(true, words, trail)
  {
  }

  lemma ShapeStarts(c: char, words: seq<string>, trail: bool)
    requires words != []
    ensures [c] + Shape(true, words, trail) == Shape(false, [[c]] + words, trail)
  {
    assert ([[c]] + words)[1..] == words;
    assert Join([[c]] + words, '-') == [c] + ['-'] + Join(words, '-');
  }

  lemma {:induction false} CollapseIsWords(s: string)
    ensures Collapse(s) == if Words(s) == [] then Hyphen(s != "") else Shape(StartsOpen(s), Words(s), EndsOpen(s))
    decreases |s|
  {
    if s == "" {
    } else if IsSlugChar(s[0]) {
      CollapseIsWords(s[1..]);
      CollapseWord(s);
    } else {
      CollapseIsWords(SkipOthers(s[1..]));
      CollapseGap(s);
    }
  }

  /** A gap in front of `r` becomes one hyphen and adds no word. */
  lemma GapUnfolds(s: string)
    requires s != "" && !IsSlugChar(s[0])
    ensures var r := SkipOthers(s[1..]);
            && Collapse(s) == ['-'] + Collapse(r) && Words(s) == Words(r)
            && (r != "" ==> EndsOpen(s) == EndsOpen(r) && !StartsOpen(r) && Words(r) != [])
  {
    WordsSkip(s[1..]);
    SkipOthersStops(s[1..]);
    if SkipOthers(s[1..]) != "" {
      GapEnds(s);
    }
  }

  lemma GapEnds(s: string)
    requires s != "" && SkipOthers(s[1..]) != "" && IsSlugChar(SkipOthers(s[1..])[0])
    ensures EndsOpen(s) == EndsOpen(SkipOthers(s[1..])) && Words(SkipOthers(s[1..])) != []
  {
    WordsSkip(s[1..]);
    WordsStart(SkipOthers(s[1..]));
    assert EndsOpen(s) == EndsOpen(s[1..]);
  }

  lemma CollapseGap(s: string)
    requires s != "" && !IsSlugChar(s[0])
    requires var r := SkipOthers(s[1..]);
             Collapse(r) == if Words(r) == [] then Hyphen(r != "") else Shape(StartsOpen(r), Words(r), EndsOpen(r))
    ensures Collapse(s) == if Words(s) == [] then Hyphen(true) else Shape(true, Words(s), EndsOpen(s))
  {
    GapUnfolds(s);
    GapShape(SkipOthers(s[1..]), Collapse(SkipOthers(s[1..])), Words(SkipOthers(s[1..])), EndsOpen(s));
  }

  lemma GapShape(r: string, collapsed: string, words: seq<string>, trail: bool)
    requires words == [] <==> r == ""
    requires collapsed == if words == [] then "" else Shape(false, words, trail)
    ensures ['-'] + collapsed == if words == [] then Hyphen(true) else Shape(true, words, trail)
  {
    ShapeLeads(words, trail);
  }

  lemma CollapseWord(s: string)
    requires s != "" && IsSlugChar(s[0])
    requires var r := s[1..];
             Collapse(r) == if Words(r) == [] then Hyphen(r != "") else Shape(StartsOpen(r), Words(r), EndsOpen(r))
    ensures Words(s) != [] && Collapse(s) == Shape(false, Words(s), EndsOpen(s))
  {
    var r := s[1..];
    if r == "" {
    } else if IsSlugChar(s[1]) {
      WordsStart(r);
      ShapeGrows(s[0], Words(r), EndsOpen(r));
    } else if Words(r) == [] {
      NoWordsEndsOpen(r);
      assert [s[0]] + Hyphen(true) == Shape(false, [[s[0]]], true);
    } else {
      ShapeStarts(s[0], Words(r), EndsOpen(r));
    }
  }

  lemma {:induction false} NoWordsEndsOpen(s: string)
    requires Words(s) == [] && s != ""
    ensures EndsOpen(s)
  {
    if IsSlugChar(s[0]) {
      WordsStart(s);
    } else if |s| > 1 {
      NoWordsEndsOpen(s[1..]);
    }
  }

  lemma {:induction false} JoinEnds(words: seq<string>)
    requires words != [] && forall i :: 0 <= i < |words| ==> IsWord(words[i])
    ensures var s := Join(words, '-'); s != "" && IsSlugChar(s[0]) && IsSlugChar(s[|s| - 1])
  {
    assert IsWord(words[0]);
    if |words| > 1 {
      JoinEnds(words[1..]);
    }
  }

  lemma DropsShape(lead: bool, words: seq<string>, trail: bool)
    requires var s := Join(words, '-'); s != "" && s[0] != '-' && s[|s| - 1] != '-'
    ensures DropTrailing(DropLeading(Shape(lead, words, trail))) == Join(words, '-')
  {
    DropsEnds(lead, Join(words, '-'), trail);
  }

  lemma DropsEnds(lead: bool, s: string, trail: bool)
    requires s != "" && s[0] != '-' && s[|s| - 1] != '-'
    ensures DropTrailing(DropLeading(Hyphen(lead) + s + Hyphen(trail))) == s
  {
    var t := s + Hyphen(trail);
    assert Hyphen(lead) + s + Hyphen(trail) == Hyphen(lead) + t;
    DropsLead(lead, t);
    DropsTrail(s, trail);
  }

  lemma DropsLead(lead: bool, t: string)
    requires t != "" && t[0] != '-'
    ensures DropLeading(Hyphen(lead) + t) == t
  {
    if lead {
      assert (Hyphen(lead) + t)[1..] == t;
    } else {
      assert Hyphen(lead) + t == t;
    }
  }

  lemma DropsTrail(s: string, trail: bool)
    requires s != "" && s[|s| - 1] != '-'
    ensures DropTrailing(s + Hyphen(trail)) == s
  {
    if trail {
      var t := s + Hyphen(trail);
      assert t[..|t| - 1] == s;
    } else {
      assert s + Hyphen(trail) == s;
    }
  }

  /** The slug is the lower-cased name's words joined by hyphens, or "folder" when there are none. */
  lemma SlugIsWords(lower: string -> string, name: string)
    ensures Slug(lower, name) == var words := Words(lower(name)); if words == [] then "folder" else Join(words, '-')
  {
    var s := lower(name);
    var words := Words(s);
    CollapseIsWords(s);
    WordsAreWords(s);
    if words == [] {
      assert "-"[1..] == "";
    } else {
      JoinEnds(words);
      DropsShape(StartsOpen(s), words, EndsOpen(s));
    }
  }

  // ---- The lines users paste -----------------------------------------------------------------------

  const GIT_URL_DEFAULT := "<git-url>"
  const KEY_DEFAULT := "<access-key>"
  const API_DEFAULT := "<api-url>"

  function CloneDirectory(lower: string -> string, directoryName: string, scopeName: string): string {
    Slug(lower, OrElse(OrElse(directoryName, scopeName), "workspace"))
  }

  function CloneLine(lower: string -> string, gitUrl: string, directoryName: string, scopeName: string): string {
    "git clone " + ShellQuote(OrElse(gitUrl, GIT_URL_DEFAULT)) + " "
    + ShellQuote(CloneDirectory(lower, directoryName, scopeName))
  }

  function CdLine(lower: string -> string, directoryName: string, scopeName: string): string {
    "cd " + ShellQuote(CloneDirectory(lower, directoryName, scopeName))
  }

  function RemoteLine(gitUrl: string): string {
    "git remote add origin " + ShellQuote(OrElse(gitUrl, GIT_URL_DEFAULT))
  }

  function LoginLine(accessKey: string, profileName: string, apiBase: string): string {
    Join(["printf '%s' " + ShellQuote(OrElse(accessKey, KEY_DEFAULT)),
          "|",
          "puppyone ap login",
          ShellQuote(OrElse(profileName, "folder")),
          "--api-url",
          ShellQuote(OrElse(apiBase, API_DEFAULT)),
          "--access-key-stdin"], ' ')
  }

  lemma CanonicalHasNoNul(s: string)
    requires Canonical(s)
    ensures '\0' !in s
  {
  }

  lemma ThreeWords(a: string, b: string, c: string)
    ensures Join([a, b, c], ' ') == a + [' '] + b + [' '] + c
  {
    assert [a, b, c][1..] == [b, c] && [b, c][1..] == [c];
    assert Join([b, c], ' ') == b + [' '] + c;
    assert a + [' '] + (b + [' '] + c) == a + [' '] + b + [' '] + c;
  }

  function ClonePieces(q: string, d: string): seq<Piece> {
    [Literal("git"), Literal("clone"), Quoted(q), Quoted(d)]
  }

  lemma CloneRendered(q: string, d: string)
    ensures RenderAll(ClonePieces(q, d)) == "git clone " + ShellQuote(q) + " " + ShellQuote(d)
  {
    assert Renders(ClonePieces(q, d)) == ["git", "clone"] + [ShellQuote(q), ShellQuote(d)];
    JoinConcat(["git", "clone"], [ShellQuote(q), ShellQuote(d)], ' ');
    Spell("git", "clone", ShellQuote(q), ShellQuote(d));
    assert "git" + [' '] + "clone" + [' '] == "git clone ";
    assert [' '] == " ";
  }

  lemma Spell(a: string, b: string, c: string, d: string)
    ensures Join([a, b], ' ') + [' '] + Join([c, d], ' ') == (a + [' '] + b + [' ']) + c + [' '] + d
  {
    assert [a, b][1..] == [b] && [c, d][1..] == [d];
  }

  lemma CloneRead(q: string, d: string)
    requires '\0' !in d
    ensures Lex(RenderAll(ClonePieces(q, d)), Between)
         == if '\0' in q then None else Some([Word("git"), Word("clone"), Word(q), Word(d)])
  {
    var pieces := ClonePieces(q, d);
    LexLine(pieces);
    assert HasNul(pieces[2]) <==> '\0' in q;
    assert MeaningAll(pieces) == [Word("git"), Word("clone"), Word(q), Word(d)];
  }

  /** The clone line runs `git clone` on exactly the remote and the slug, for every remote a shell can hold. */
  lemma CloneArgv(lower: string -> string, gitUrl: string, directoryName: string, scopeName: string)
    ensures var remote, dir := OrElse(gitUrl, GIT_URL_DEFAULT), CloneDirectory(lower, directoryName, scopeName);
            && Canonical(dir)
            && Lex(CloneLine(lower, gitUrl, directoryName, scopeName), Between)
               == if '\0' in remote then None else Some([Word("git"), Word("clone"), Word(remote), Word(dir)])
  {
    var remote, dir := OrElse(gitUrl, GIT_URL_DEFAULT), CloneDirectory(lower, directoryName, scopeName);
    SlugCanonical(lower, OrElse(OrElse(directoryName, scopeName), "workspace"));
    CanonicalHasNoNul(dir);
    CloneRendered(remote, dir);
    CloneRead(remote, dir);
  }

  /** The login line pipes exactly the access key, through `printf`, into a login with exactly the given
      profile and address: one bar, whatever the values contain. */
  lemma LoginArgv(accessKey: string, profileName: string, apiBase: string)
    ensures var key, profile := OrElse(accessKey, KEY_DEFAULT), OrElse(profileName, "folder");
            var api := OrElse(apiBase, API_DEFAULT);
            Lex(LoginLine(accessKey, profileName, apiBase), Between)
            == if '\0' in key || '\0' in profile || '\0' in api then None
               else Some([Word("printf"), Word("%s"), Word(key), Pipe,
                          Word("puppyone"), Word("ap"), Word("login"), Word(profile),
                          Word("--api-url"), Word(api), Word("--access-key-stdin")])
  {
    var key, profile := OrElse(accessKey, KEY_DEFAULT), OrElse(profileName, "folder");
    var api := OrElse(apiBase, API_DEFAULT);
    LoginRendered(key, profile, api);
    LoginRead(key, profile, api);
  }

  function LoginPieces(key: string, profile: string, api: string): seq<Piece> {
    [Literal("printf"), Quoted("%s"), Quoted(key), Bar,
     Literal("puppyone"), Literal("ap"), Literal("login"), Quoted(profile),
     Literal("--api-url"), Quoted(api), Literal("--access-key-stdin")]
  }

  lemma LoginRead(key: string, profile: string, api: string)
    ensures Lex(RenderAll(LoginPieces(key, profile, api)), Between)
            == if '\0' in key || '\0' in profile || '\0' in api then None
               else Some([Word("printf"), Word("%s"), Word(key), Pipe,
                          Word("puppyone"), Word("ap"), Word("login"), Word(profile),
                          Word("--api-url"), Word(api), Word("--access-key-stdin")])
  {
    var pieces := LoginPieces(key, profile, api);
    LexLine(pieces);
    LoginNuls(key, profile, api);
    LoginMeaning(key, profile, api);
  }

  lemma LoginNuls(key: string, profile: string, api: string)
    ensures var pieces := LoginPieces(key, profile, api);
            (exists i :: 0 <= i < |pieces| && HasNul(pieces[i])) <==> '\0' in key || '\0' in profile || '\0' in api
  {
    var pieces := LoginPieces(key, profile, api);
    assert HasNul(pieces[2]) <==> '\0' in key;
    assert HasNul(pieces[7]) <==> '\0' in profile;
    assert HasNul(pieces[9]) <==> '\0' in api;
  }

  lemma LoginMeaning(key: string, profile: string, api: string)
    ensures MeaningAll(LoginPieces(key, profile, api))
         == [Word("printf"), Word("%s"), Word(key), Pipe, Word("puppyone"), Word("ap"), Word("login"), Word(profile),
             Word("--api-url"), Word(api), Word("--access-key-stdin")]
  {
  }

  /** A part that is itself joined may be spelled out. */
  lemma JoinSpelled(front: seq<string>, words: seq<string>, back: seq<string>)
    requires front != [] && words != [] && back != []
    ensures Join(front + ([Join(words, ' ')] + back), ' ') == Join(front + (words + back), ' ')
  {
    JoinSpelledFirst(words, back);
    JoinConcat(front, [Join(words, ' ')] + back, ' ');
    JoinConcat(front, words + back, ' ');
  }

  lemma JoinSpelledFirst(words: seq<string>, back: seq<string>)
    requires words != [] && back != []
    ensures Join([Join(words, ' ')] + back, ' ') == Join(words + back, ' ')
  {
    JoinConcat(words, back, ' ');
    JoinConcat([Join(words, ' ')], back, ' ');
  }

  lemma LoginRendered(key: string, profile: string, api: string)
    ensures RenderAll(LoginPieces(key, profile, api))
         == Join(["printf '%s' " + ShellQuote(key), "|", "puppyone ap login", ShellQuote(profile), "--api-url",
                  ShellQuote(api), "--access-key-stdin"], ' ')
  {
    var k, p, a := ShellQuote(key), ShellQuote(profile), ShellQuote(api);
    PrintfSpelled(k);
    LoginSpelled();
    LoginJoined(["printf", ShellQuote("%s"), k], ["puppyone", "ap", "login"],
                [p, "--api-url", a, "--access-key-stdin"]);
    LoginParts(["printf", ShellQuote("%s"), k], ["puppyone", "ap", "login"], p, a);
    assert Renders(LoginPieces(key, profile, api))
        == ["printf", ShellQuote("%s"), k, "|", "puppyone", "ap", "login", p, "--api-url", a, "--access-key-stdin"];
  }

  /** Two joined parts of a line, spelled out. */
  lemma LoginJoined(first: seq<string>, middle: seq<string>, back: seq<string>)
    requires first != [] && middle != [] && back != []
    ensures Join([Join(first, ' ')] + (["|"] + ([Join(middle, ' ')] + back)), ' ')
         == Join(first + (["|"] + (middle + back)), ' ')
  {
    JoinSpelledFirst(first, ["|"] + ([Join(middle, ' ')] + back));
    JoinSpelled(first + ["|"], middle, back);
    ConcatAssociates(first, ["|"], [Join(middle, ' ')] + back);
    ConcatAssociates(first, ["|"], middle + back);
  }

  lemma LoginParts(first: seq<string>, middle: seq<string>, p: string, a: string)
    requires |first| == 3 && |middle| == 3
    ensures [Join(first, ' ')] + (["|"] + ([Join(middle, ' ')] + [p, "--api-url", a, "--access-key-stdin"]))
         == [Join(first, ' '), "|", Join(middle, ' '), p, "--api-url", a, "--access-key-stdin"]
    ensures first + (["|"] + (middle + [p, "--api-url", a, "--access-key-stdin"]))
         == [first[0], first[1], first[2], "|", middle[0], middle[1], middle[2],
             p, "--api-url", a, "--access-key-stdin"]
  {
  }

  lemma PrintfSpelled(k: string)
    ensures Join(["printf", ShellQuote("%s"), k], ' ') == "printf '%s' " + k
  {
    ThreeWords("printf", ShellQuote("%s"), k);
    assert EscapeQuotes("s") == "s" by {
      assert "s"[1..] == "";
    }
    assert EscapeQuotes("%s") == "%s" by {
      assert "%s"[1..] == "s";
    }
    assert ShellQuote("%s") == "'%s'";
  }

  lemma LoginSpelled()
    ensures Join(["puppyone", "ap", "login"], ' ') == "puppyone ap login"
  {
    ThreeWords("puppyone", "ap", "login");
  }

  /** `cd` goes into the directory the clone line names. */
  lemma CdArgv(lower: string -> string, directoryName: string, scopeName: string)
    ensures Lex(CdLine(lower, directoryName, scopeName), Between)
         == Some([Word("cd"), Word(CloneDirectory(lower, directoryName, scopeName))])
  {
    var dir := CloneDirectory(lower, directoryName, scopeName);
    SlugCanonical(lower, OrElse(OrElse(directoryName, scopeName), "workspace"));
    CanonicalHasNoNul(dir);
    CdRead(dir);
  }

  lemma CdRead(dir: string)
    requires '\0' !in dir
    ensures Lex("cd " + ShellQuote(dir), Between) == Some([Word("cd"), Word(dir)])
  {
    var pieces := [Literal("cd"), Quoted(dir)];
    assert Renders(pieces) == ["cd", ShellQuote(dir)];
    assert ["cd", ShellQuote(dir)][1..] == [ShellQuote(dir)];
    assert Join([ShellQuote(dir)], ' ') == ShellQuote(dir);
    assert RenderAll(pieces) == "cd" + [' '] + ShellQuote(dir);
    assert "cd" + [' '] == "cd ";
    LexLine(pieces);
    assert MeaningAll(pieces) == [Word("cd"), Word(dir)];
  }

  /** The remote is added under the name `origin`, exactly as given. */
  lemma RemoteArgv(gitUrl: string)
    ensures var remote := OrElse(gitUrl, GIT_URL_DEFAULT);
            Lex(RemoteLine(gitUrl), Between)
            == if '\0' in remote then None
               else Some([Word("git"), Word("remote"), Word("add"), Word("origin"), Word(remote)])
  {
    var remote := OrElse(gitUrl, GIT_URL_DEFAULT);
    var pieces := [Literal("git"), Literal("remote"), Literal("add"), Literal("origin"), Quoted(remote)];
    RemoteRendered(ShellQuote(remote));
    assert Renders(pieces) == ["git", "remote", "add", "origin"] + [ShellQuote(remote)];
    LexLine(pieces);
    assert HasNul(pieces[4]) <==> '\0' in remote;
    assert MeaningAll(pieces) == [Word("git"), Word("remote"), Word("add"), Word("origin"), Word(remote)];
  }

  lemma RemoteRendered(q: string)
    ensures Join(["git", "remote", "add", "origin"] + [q], ' ') == "git remote add origin " + q
  {
    var words := ["git", "remote", "add", "origin"];
    calc {
      Join(words + [q], ' ');
      { JoinConcat(words, [q], ' '); }
      Join(words, ' ') + [' '] + Join([q], ' ');
      { RemoteSpelled(); }
      "git remote add origin" + [' '] + q;
      { assert "git remote add origin" + [' '] == "git remote add origin "; }
      "git remote add origin " + q;
    }
  }

  lemma RemoteSpelled()
    ensures Join(["git", "remote", "add", "origin"], ' ') == "git remote add origin"
  {
    var words := ["git", "remote", "add", "origin"];
    ThreeWords("remote", "add", "origin");
    assert words[1..] == ["remote", "add", "origin"];
    assert "remote" + [' '] + "add" + [' '] + "origin" == "remote add origin";
    assert Join(words, ' ') == "git" + [' '] + "remote add origin";
  }

  // ---- Spelled out -----------------------------------------------------------------------------------

  predicate Stays(c: char) { 'a' <= c <= 'z' || '0' <= c <= '9' }

  /** A run of a-z and 0-9 is one word; any other character parts what is before it from what is behind it. */
  lemma {:induction false} WordsOfRun(w: string)
    requires w != "" && forall i :: 0 <= i < |w| ==> Stays(w[i])
    ensures Words(w) == [w]
  {
    if |w| > 1 {
      WordsOfRun(w[1..]);
      assert w == [w[0]] + w[1..];
    } else {
      assert w == [w[0]] && w[1..] == "" && Words(w[1..]) == [];
    }
  }

  lemma {:induction false} WordsParted(a: string, c: char, b: string)
    requires !Stays(c)
    ensures Words(a + [c] + b) == Words(a) + Words(b)
  {
    var s := a + [c] + b;
    if a == "" {
      assert s[1..] == b;
    } else {
      assert s[1..] == a[1..] + [c] + b && s[0] == a[0];
      WordsParted(a[1..], c, b);
      WordsOfRest(a, c, b);
    }
  }

  lemma WordsOfRest(a: string, c: char, b: string)
    requires a != "" && !Stays(c) && Words(a[1..] + [c] + b) == Words(a[1..]) + Words(b)
    ensures Words(a + [c] + b) == Words(a) + Words(b)
  {
    var s := a + [c] + b;
    assert s[1..] == a[1..] + [c] + b && s[0] == a[0];
    if Stays(a[0]) {
      if |a| > 1 {
        assert s[1] == a[1];
        if Stays(a[1]) {
          WordsStart(a[1..]);
          assert (Words(a[1..]) + Words(b))[0] == Words(a[1..])[0];
          assert (Words(a[1..]) + Words(b))[1..] == Words(a[1..])[1..] + Words(b);
        }
      } else {
        assert s[1] == c && a[1..] == "" && Words(a[1..]) == [];
      }
    }
  }

  /** The slug in full: the runs in the order of the name, with single hyphens between them. Together with the two
      lemmas above this says which characters stay. */
  lemma SlugSpelled(lower: string -> string, name: string)
    ensures var words := Words(lower(name));
            && Slug(lower, name) == (if words == [] then "folder" else Join(words, '-'))
            && forall i :: 0 <= i < |words| ==> words[i] != "" && forall j :: 0 <= j < |words[i]| ==> Stays(words[i][j])
  {
    var words := Words(lower(name));
    SlugIsWords(lower, name);
    WordsAreWords(lower(name));
    forall i | 0 <= i < |words| ensures words[i] != "" && forall j :: 0 <= j < |words[i]| ==> Stays(words[i][j]) {
      assert IsWord(words[i]);
    }
  }

  /** The directory is named after the given directory name, else after the scope, else `workspace`. */
  lemma CloneDirectoryIs(lower: string -> string, directoryName: string, scopeName: string)
    ensures directoryName != "" ==> CloneDirectory(lower, directoryName, scopeName) == Slug(lower, directoryName)
    ensures directoryName == "" && scopeName != "" ==>
              CloneDirectory(lower, directoryName, scopeName) == Slug(lower, scopeName)
    ensures CloneDirectory(lower, "", "") == Slug(lower, "workspace")
  {
  }

  /** What stands in for a blank value. */
  lemma DefaultsAre(value: string, other: string)
    ensures value != "" ==> OrElse(value, other) == value
    ensures OrElse("", other) == other
    ensures GIT_URL_DEFAULT == "<git-url>" && KEY_DEFAULT == "<access-key>" && API_DEFAULT == "<api-url>"
  {
  }

  /** Only quotes are escaped, each by closing the quotes, an escaped quote, and opening them again. */
  lemma EscapeSpelled(c: char, rest: string)
    ensures EscapeQuotes([c] + rest) == (if c == '\'' then "'\\''" else [c]) + EscapeQuotes(rest)
    ensures EscapeQuotes("") == "" && ShellQuote(rest) == "'" + EscapeQuotes(rest) + "'"
  {
    assert ([c] + rest)[1..] == rest;
  }
}
