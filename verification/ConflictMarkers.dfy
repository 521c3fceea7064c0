/** Conflict markers in a text: recognising the lines, parsing the blocks, rendering them back. */
module ConflictMarkers {
  import opened Text
  import opened MarkerScan

  datatype Block = Block(
    startLine: nat, endLine: nat, ours: string, theirs: string, oursLabel: string, theirsLabel: string)

  const OPEN_MARK := "<<<<<<<"
  const SEPARATOR_MARK := "======="
  const CLOSE_MARK := ">>>>>>>"

  // ---- The three line patterns ---------------------------------------------------------------

  predicate IsLineTerminator(c: char) {
    c == '\n' || c == '\r' || c == '\U{2028}' || c == '\U{2029}'
  }

  /** What `.*` matches up to the end of the input: it cannot cross a line terminator. */
  predicate OneLine(s: string) {
    forall i :: 0 <= i < |s| ==> !IsLineTerminator(s[i])
  }

  predicate IsOpen(line: string) {
    OPEN_MARK <= line && OneLine(TrimStart(line[7..]))
  }

  predicate IsSeparator(line: string) {
    SEPARATOR_MARK <= line && TrimStart(line[7..]) == ""
  }

  predicate IsClose(line: string) {
    CLOSE_MARK <= line && OneLine(TrimStart(line[7..]))
  }

  function TagOf(line: string): Tag {
    if IsOpen(line) then Open
    else if IsSeparator(line) then Separator
    else if IsClose(line) then Close
    else Tag.Plain
  }

  /** No line matches two patterns, so testing them in any order gives the same tag. */
  lemma TagIsPattern(line: string)
    ensures TagOf(line).Open? <==> IsOpen(line)
    ensures TagOf(line).Separator? <==> IsSeparator(line)
    ensures TagOf(line).Close? <==> IsClose(line)
  {
    assert OPEN_MARK[0] == '<' && SEPARATOR_MARK[0] == '=' && CLOSE_MARK[0] == '>';
  }

  /** Every line's tag; the patterns are a parameter so that most reasoning need not look at them. */
  function Tags(lines: seq<string>, tagOf: string -> Tag): (tags: seq<Tag>)
    ensures |tags| == |lines|
    ensures forall i :: 0 <= i < |lines| ==> tags[i] == tagOf(lines[i])
  {
    seq(|lines|, i requires 0 <= i < |lines| => tagOf(lines[i]))
  }

  function Label(line: string): string {
    if |line| < 7 then "" else Trim(TrimStart(line[7..]))
  }

  // ---- Parsing -----------------------------------------------------------------------------------

  function BlockOf(lines: seq<string>, b: Span): Block
    requires b.open < b.separator < b.close < |lines|
  {
    Block(b.open, b.close, Join(lines[b.open + 1..b.separator], '\n'), Join(lines[b.separator + 1..b.close], '\n'),
          Label(lines[b.open]), Label(lines[b.close]))
  }

  predicate Within(spans: seq<Span>, n: nat) {
    forall k :: 0 <= k < |spans| ==> spans[k].open < spans[k].separator < spans[k].close < n
  }

  function BlocksOf(lines: seq<string>, spans: seq<Span>): (blocks: seq<Block>)
    requires Within(spans, |lines|)
    ensures |blocks| == |spans|
    ensures forall k :: 0 <= k < |spans| ==> blocks[k] == BlockOf(lines, spans[k])
  {
    seq(|spans|, k requires 0 <= k < |spans| => BlockOf(lines, spans[k]))
  }

  function ParseLines(lines: seq<string>, tagOf: string -> Tag): seq<Block> {
    SpansWithin(lines, tagOf);
    BlocksOf(lines, Spans(Tags(lines, tagOf), 0))
  }

  lemma SpansWithin(lines: seq<string>, tagOf: string -> Tag)
    ensures Within(Spans(Tags(lines, tagOf), 0), |lines|)
  {
    SpansOrdered(Tags(lines, tagOf), 0);
  }

  function Parse(content: string): seq<Block> {
    ParseLines(Split(content, '\n'), TagOf)
  }

  /** The inner loop: looks for the separator, then for the close; -1 stands for "not found". */
  method ScanBlock(lines: seq<string>, tagOf: string -> Tag, index: nat) returns (separator: int, endLine: int)
    requires index < |lines| && tagOf(lines[index]).Open?
    ensures Scan(Tags(lines, tagOf), index) ==
            if separator < 0 || endLine < 0 then None else Some(Span(index, separator, endLine))
    ensures -1 <= separator && -1 <= endLine
  {
    ghost var tags := Tags(lines, tagOf);
    separator, endLine := -1, -1;
    for cursor := index + 1 to |lines|
      invariant endLine == -1 && (separator == -1 || index + 1 <= separator < cursor)
      invariant separator == -1 ==> First(tags, Separator, index + 1) == First(tags, Separator, cursor)
      invariant separator != -1 ==>
                  && First(tags, Separator, index + 1) == separator
                  && First(tags, Close, separator + 1) == First(tags, Close, cursor)
    {
      if separator == -1 && tagOf(lines[cursor]).Separator? {
        separator := cursor;
        continue;
      }
      if separator != -1 && tagOf(lines[cursor]).Close? {
        endLine := cursor;
        break;
      }
    }
  }

  /** What one turn of the outer loop finds: nothing, and the next line is tried, or a block. */
  ghost predicate Turns(tags: seq<Tag>, index: nat, found: Option<Span>)
    requires index < |tags|
  {
    match found
    case None => Spans(tags, index) == Spans(tags, index + 1)
    case Some(b) => IsSpan(tags, b) && Spans(tags, index) == [b] + Spans(tags, b.close + 1) && b.open == index
  }

  /** One turn of the outer loop. */
  method BlockAt(lines: seq<string>, tagOf: string -> Tag, index: nat) returns (found: Option<Span>)
    requires index < |lines|
    ensures Turns(Tags(lines, tagOf), index, found)
  {
    if !tagOf(lines[index]).Open? {
      return None;
    }
    var separator, endLine := ScanBlock(lines, tagOf, index);
    if separator == -1 || endLine == -1 {
      return None;
    }
    return Some(Span(index, separator, endLine));
  }

  /** The blocks found so far and those still to come are all blocks of the parse. */
  ghost predicate Parsing(lines: seq<string>, tagOf: string -> Tag, index: nat, blocks: seq<Block>) {
    && index <= |lines| && Within(Spans(Tags(lines, tagOf), index), |lines|)
    && ParseLines(lines, tagOf) == blocks + BlocksOf(lines, Spans(Tags(lines, tagOf), index))
  }

  lemma ParsingStarts(lines: seq<string>, tagOf: string -> Tag)
    ensures Parsing(lines, tagOf, 0, [])
  {
    SpansWithin(lines, tagOf);
    assert [] + ParseLines(lines, tagOf) == ParseLines(lines, tagOf);
  }

  lemma ParsingTurns(lines: seq<string>, tagOf: string -> Tag, index: nat, blocks: seq<Block>, b: Span)
    requires Parsing(lines, tagOf, index, blocks) && index < |lines| && Turns(Tags(lines, tagOf), index, Some(b))
    ensures Parsing(lines, tagOf, b.close + 1, blocks + [BlockOf(lines, b)])
  {
    var rest := Spans(Tags(lines, tagOf), b.close + 1);
    WithinRest(b, rest, |lines|);
    BlocksCons(lines, b, rest);
    ConcatAssociates(blocks, [BlockOf(lines, b)], BlocksOf(lines, rest));
  }

  lemma ParsingSkips(lines: seq<string>, tagOf: string -> Tag, index: nat, blocks: seq<Block>)
    requires Parsing(lines, tagOf, index, blocks) && index < |lines| && Turns(Tags(lines, tagOf), index, None)
    ensures Parsing(lines, tagOf, index + 1, blocks)
  {
  }

  lemma WithinRest(b: Span, rest: seq<Span>, n: nat)
    requires Within([b] + rest, n)
    ensures Within(rest, n)
  {
    assert forall k :: 0 <= k < |rest| ==> ([b] + rest)[k + 1] == rest[k];
  }

  lemma ParsingEnds(lines: seq<string>, tagOf: string -> Tag, blocks: seq<Block>)
    requires Parsing(lines, tagOf, |lines|, blocks)
    ensures blocks == ParseLines(lines, tagOf)
  {
    assert BlocksOf(lines, []) == [] && blocks + [] == blocks;
  }

  /** The outer loop: tries every open line in turn and continues after the block it closes. */
  method ParseBlocks(lines: seq<string>, tagOf: string -> Tag) returns (blocks: seq<Block>)
    ensures blocks == ParseLines(lines, tagOf)
  {
    ParsingStarts(lines, tagOf);
    blocks := [];
    var index := 0;
    while index < |lines|
      invariant index <= |lines| && Parsing(lines, tagOf, index, blocks)
      decreases |lines| - index
    {
      index, blocks := Turn(lines, tagOf, index, blocks);
    }
    ParsingEnds(lines, tagOf, blocks);
  }

  method Turn(lines: seq<string>, tagOf: string -> Tag, index: nat, blocks: seq<Block>)
    returns (next: nat, more: seq<Block>)
    requires Parsing(lines, tagOf, index, blocks) && index < |lines|
    ensures Parsing(lines, tagOf, next, more) && index < next
  {
    var found := BlockAt(lines, tagOf, index);
    next, more := Take(lines, tagOf, index, blocks, found);
  }

  method Take(lines: seq<string>, tagOf: string -> Tag, index: nat, blocks: seq<Block>, found: Option<Span>)
    returns (next: nat, more: seq<Block>)
    requires Parsing(lines, tagOf, index, blocks) && index < |lines| && Turns(Tags(lines, tagOf), index, found)
    ensures Parsing(lines, tagOf, next, more) && index < next
  {
    match found {
      case None =>
        ParsingSkips(lines, tagOf, index, blocks);
        return index + 1, blocks;
      case Some(b) =>
        ParsingTurns(lines, tagOf, index, blocks, b);
        return b.close + 1, blocks + [BlockOf(lines, b)];
    }
  }

  method ParseConflictMarkers(content: string) returns (blocks: seq<Block>)
    ensures blocks == Parse(content)
  {
    if content == "" || !Includes(content, OPEN_MARK) {
      ShortcutIsSound(content);
      return [];
    }
    blocks := ParseBlocks(Split(content, '\n'), TagOf);
  }

  /** An open line, a separator and a close line, in this order. */
  ghost predicate HasConflict(lines: seq<string>, tagOf: string -> Tag) {
    exists o, s, c ::
      0 <= o < s < c < |lines| && tagOf(lines[o]).Open? && tagOf(lines[s]).Separator? && tagOf(lines[c]).Close?
  }

  /** A text parses to some block exactly if it holds the three kinds of line in order. */
  lemma BlocksIffConflict(lines: seq<string>, tagOf: string -> Tag)
    ensures ParseLines(lines, tagOf) != [] <==> HasConflict(lines, tagOf)
  {
    var tags := Tags(lines, tagOf);
    SpansWithin(lines, tagOf);
    SpansIffConflict(tags, 0);
    if o, s, c :| 0 <= o < s < c < |lines| && tagOf(lines[o]).Open? && tagOf(lines[s]).Separator?
                  && tagOf(lines[c]).Close? {
      assert IsSpan(tags, Span(o, s, c));
    }
  }

  /** The source's test for conflict markers; a missing text has none. */
  method HasConflictMarkers(content: Option<string>) returns (has: bool)
    ensures has <==> content.Some? && HasConflict(Split(content.value, '\n'), TagOf)
  {
    if content.None? {
      return false;
    }
    BlocksIffConflict(Split(content.value, '\n'), TagOf);
    if !Includes(content.value, OPEN_MARK) {
      ShortcutIsSound(content.value);
      return false;
    }
    var blocks := ParseConflictMarkers(content.value);
    return |blocks| > 0;
  }

  // ---- The shortcut ------------------------------------------------------------------------------

  /** `s.includes(t)`. */
  predicate Includes(s: string, t: string) {
    t <= s || (s != "" && Includes(s[1..], t))
  }

  lemma {:induction false} IncludesPrefix(a: string, b: string, t: string)
    requires Includes(a, t)
    ensures Includes(a + b, t)
  {
    if t <= a {
      assert t <= a + b;
    } else {
      IncludesPrefix(a[1..], b, t);
      assert (a + b)[1..] == a[1..] + b;
    }
  }

  lemma {:induction false} IncludesSuffix(a: string, b: string, t: string)
    requires Includes(b, t)
    ensures Includes(a + b, t)
  {
    if a == "" {
      assert a + b == b;
    } else {
      IncludesSuffix(a[1..], b, t);
      assert (a + b)[1..] == a[1..] + b;
    }
  }

  lemma {:induction false} IncludesPart(parts: seq<string>, k: nat, t: string)
    requires k < |parts| && Includes(parts[k], t)
    ensures Includes(Join(parts, '\n'), t)
  {
    if |parts| > 1 {
      var rest := Join(parts[1..], '\n');
      if k == 0 {
        IncludesPrefix(parts[0], ['\n'] + rest, t);
        assert parts[0] + ['\n'] + rest == parts[0] + (['\n'] + rest);
      } else {
        IncludesPart(parts[1..], k - 1, t);
        IncludesSuffix(parts[0] + ['\n'], rest, t);
      }
    }
  }

  lemma {:induction false} NoOpenNoSpans(tags: seq<Tag>, i: nat)
    requires i <= |tags| && forall k :: i <= k < |tags| ==> !tags[k].Open?
    ensures Spans(tags, i) == []
    decreases |tags| - i
  {
    if i < |tags| {
      NoOpenNoSpans(tags, i + 1);
    }
  }

  /** A text without seven `<` in a row has no block: the early return never changes the result. */
  lemma ShortcutIsSound(content: string)
    requires !Includes(content, OPEN_MARK)
    ensures Parse(content) == []
  {
    var lines := Split(content, '\n');
    JoinSplit(content, '\n');
    forall k | 0 <= k < |lines| ensures !TagOf(lines[k]).Open? {
      if OPEN_MARK <= lines[k] {
        IncludesPart(lines, k, OPEN_MARK);
      }
    }
    NoOpenNoSpans(Tags(lines, TagOf), 0);
  }

  // ---- Rendering and parsing back ------------------------------------------------------------------

  datatype Segment =
    | Prose(lines: seq<string>)
    | Conflict(oursLabel: string, ours: seq<string>, theirsLabel: string, theirs: seq<string>)

  predicate NoTag(lines: seq<string>, tagOf: string -> Tag, tag: Tag) {
    forall i :: 0 <= i < |lines| ==> tagOf(lines[i]) != tag
  }

  /** Text without open lines, our side without separators, their side without close lines. */
  predicate Renderable(s: Segment, tagOf: string -> Tag) {
    match s
    case Prose(lines) => NoTag(lines, tagOf, Open)
    case Conflict(ol, ours, tl, theirs) =>
      OneLine(ol) && NoTag(ours, tagOf, Separator) && OneLine(tl) && NoTag(theirs, tagOf, Close)
  }

  /** The rendered marker lines are recognised as what they are. */
  predicate Marked(s: Segment, tagOf: string -> Tag) {
    s.Conflict? ==>
      && tagOf(OPEN_MARK + " " + s.oursLabel).Open? && tagOf(SEPARATOR_MARK).Separator?
      && tagOf(CLOSE_MARK + " " + s.theirsLabel).Close?
  }

  function RenderSegment(s: Segment): seq<string> {
    match s
    case Prose(lines) => lines
    case Conflict(ol, ours, tl, theirs) =>
      [OPEN_MARK + " " + ol] + ours + [SEPARATOR_MARK] + theirs + [CLOSE_MARK + " " + tl]
  }

  function SegmentLength(s: Segment): nat {
    match s
    case Prose(lines) => |lines|
    case Conflict(_, ours, _, theirs) => |ours| + |theirs| + 3
  }

  function RenderWith(show: Segment -> seq<string>, segments: seq<Segment>): seq<string> {
    if segments == [] then [] else show(segments[0]) + RenderWith(show, segments[1..])
  }

  function Render(segments: seq<Segment>): seq<string> {
    RenderWith(RenderSegment, segments)
  }

  function SegmentSpan(s: Segment, at: nat): Span
    requires s.Conflict?
  {
    Span(at, at + 1 + |s.ours|, at + 2 + |s.ours| + |s.theirs|)
  }

  function SegmentBlock(s: Segment, at: nat): Block
    requires s.Conflict?
  {
    Block(at, at + 2 + |s.ours| + |s.theirs|, Join(s.ours, '\n'), Join(s.theirs, '\n'),
          Trim(s.oursLabel), Trim(s.theirsLabel))
  }

  /** The blocks the rendered segments should parse to, with their line numbers. */
  function Expected(segments: seq<Segment>, at: nat): seq<Block> {
    if segments == [] then []
    else
      (if segments[0].Conflict? then [SegmentBlock(segments[0], at)] else [])
      + Expected(segments[1..], at + SegmentLength(segments[0]))
  }

  function OneSpan(s: Segment, at: nat): seq<Span> {
    if s.Conflict? then [SegmentSpan(s, at)] else []
  }

  function ExpectedSpans(segments: seq<Segment>, at: nat): seq<Span> {
    if segments == [] then []
    else
      OneSpan(segments[0], at) + ExpectedSpans(segments[1..], at + SegmentLength(segments[0]))
  }

  lemma MarkerTags(name: string)
    requires OneLine(name)
    ensures TagOf(OPEN_MARK + " " + name).Open? && TagOf(CLOSE_MARK + " " + name).Close?
    ensures TagOf(SEPARATOR_MARK).Separator?
  {
    var open, close := OPEN_MARK + " " + name, CLOSE_MARK + " " + name;
    assert open[7..] == " " + name && close[7..] == " " + name;
    assert (" " + name)[1..] == name;
    TrimStartOneLine(name);
    assert SEPARATOR_MARK[7..] == "";
    TagIsPattern(open);
    TagIsPattern(close);
    TagIsPattern(SEPARATOR_MARK);
  }

  lemma LabelReads(name: string)
    ensures Label(OPEN_MARK + " " + name) == Label(CLOSE_MARK + " " + name) == Trim(name)
  {
    assert (OPEN_MARK + " " + name)[7..] == " " + name && (CLOSE_MARK + " " + name)[7..] == " " + name;
    assert (" " + name)[1..] == name;
    TrimStartTwice(name);
  }

  lemma {:induction false} TrimStartOneLine(s: string)
    requires OneLine(s)
    ensures OneLine(TrimStart(s))
  {
    if s != "" && IsSpace(s[0]) {
      TrimStartOneLine(s[1..]);
    }
  }

  lemma {:induction false} TrimStartTwice(s: string)
    ensures TrimStart(TrimStart(s)) == TrimStart(s)
  {
    if s != "" && IsSpace(s[0]) {
      TrimStartTwice(s[1..]);
    }
  }

  /** One segment stands at `at`: its prose, or its marker lines with the two sides between them. */
  ghost predicate PlacedOne(lines: seq<string>, at: nat, s: Segment) {
    && at + SegmentLength(s) <= |lines|
    && match s
       case Prose(text) => lines[at..at + |text|] == text
       case Conflict(ol, ours, tl, theirs) =>
         var b := SegmentSpan(s, at);
         && lines[b.open] == OPEN_MARK + " " + ol && lines[b.separator] == SEPARATOR_MARK
         && lines[b.close] == CLOSE_MARK + " " + tl
         && lines[b.open + 1..b.separator] == ours && lines[b.separator + 1..b.close] == theirs
  }

  /** The segments stand one after the other from `at` to the end. */
  /** The segments follow each other from `at` to the end of `n` lines, and `one` holds of each in its place. */
  ghost predicate Chain(n: nat, one: (nat, Segment) -> bool, at: nat, segments: seq<Segment>)
    decreases |segments|
  {
    if segments == [] then at == n
    else one(at, segments[0]) && Chain(n, one, at + SegmentLength(segments[0]), segments[1..])
  }

  lemma {:induction false} ChainWeaker(n: nat, one: (nat, Segment) -> bool, two: (nat, Segment) -> bool, at: nat,
                                       segments: seq<Segment>)
    requires Chain(n, one, at, segments)
    requires forall a: nat, s :: s in segments && one(a, s) ==> two(a, s)
    ensures Chain(n, two, at, segments)
    decreases |segments|
  {
    if segments != [] {
      ChainWeaker(n, one, two, at + SegmentLength(segments[0]), segments[1..]);
    }
  }

  ghost function PlacedIn(lines: seq<string>): (nat, Segment) -> bool {
    (at: nat, s: Segment) => PlacedOne(lines, at, s)
  }

  lemma SegmentPlaced(lines: seq<string>, at: nat, s: Segment)
    requires at + |RenderSegment(s)| <= |lines| && lines[at..at + |RenderSegment(s)|] == RenderSegment(s)
    ensures PlacedOne(lines, at, s) && |RenderSegment(s)| == SegmentLength(s)
  {
    if s.Conflict? {
      FiveParts(lines, at, OPEN_MARK + " " + s.oursLabel, s.ours, SEPARATOR_MARK, s.theirs,
                CLOSE_MARK + " " + s.theirsLabel);
    }
  }

  lemma FiveParts(lines: seq<string>, at: nat, open: string, ours: seq<string>, separator: string,
                  theirs: seq<string>, close: string)
    requires var shown := [open] + ours + [separator] + theirs + [close];
             at + |shown| <= |lines| && lines[at..at + |shown|] == shown
    ensures var n, m := |ours|, |theirs|;
            && lines[at] == open && lines[at + 1 + n] == separator && lines[at + 2 + n + m] == close
            && lines[at + 1..at + 1 + n] == ours && lines[at + 2 + n..at + 2 + n + m] == theirs
  {
    var shown := [open] + ours + [separator] + theirs + [close];
    var n, m := |ours|, |theirs|;
    assert shown[1..1 + n] == ours && shown[2 + n..2 + n + m] == theirs;
    SubSlice(lines, at, shown, 1, 1 + n);
    SubSlice(lines, at, shown, 2 + n, 2 + n + m);
    assert shown[0] == open && shown[1 + n] == separator && shown[2 + n + m] == close;
  }

  lemma SubSlice(lines: seq<string>, at: nat, shown: seq<string>, lo: nat, hi: nat)
    requires at + |shown| <= |lines| && lines[at..at + |shown|] == shown && lo <= hi <= |shown|
    ensures lines[at + lo..at + hi] == shown[lo..hi]
    ensures forall k :: 0 <= k < |shown| ==> lines[at + k] == shown[k]
  {
    forall k | 0 <= k < |shown| ensures lines[at + k] == shown[k] {
      assert lines[at..at + |shown|][k] == lines[at + k];
    }
  }

  lemma NoTagInside(lines: seq<string>, tagOf: string -> Tag, lo: nat, hi: nat, tag: Tag)
    requires lo <= hi <= |lines| && NoTag(lines[lo..hi], tagOf, tag)
    ensures forall k :: lo <= k < hi ==> Tags(lines, tagOf)[k] != tag
  {
    forall k | lo <= k < hi ensures Tags(lines, tagOf)[k] != tag {
      assert lines[k] == lines[lo..hi][k - lo];
    }
  }

  /** The tags of one segment, in place: no open line, or exactly the marker lines of one block. */
  ghost predicate Fits(tags: seq<Tag>, at: nat, s: Segment) {
    && at + SegmentLength(s) <= |tags|
    && if s.Prose? then forall k :: at <= k < at + |s.lines| ==> !tags[k].Open?
       else
         var b := SegmentSpan(s, at);
         && IsSpan(tags, b)
         && (forall k :: b.open < k < b.separator ==> !tags[k].Separator?)
         && (forall k :: b.separator < k < b.close ==> !tags[k].Close?)
  }

  ghost function FitsIn(tags: seq<Tag>): (nat, Segment) -> bool {
    (at: nat, s: Segment) => Fits(tags, at, s)
  }

  lemma SegmentFits(lines: seq<string>, tagOf: string -> Tag, at: nat, s: Segment)
    requires Renderable(s, tagOf) && Marked(s, tagOf) && PlacedOne(lines, at, s)
    ensures Fits(Tags(lines, tagOf), at, s)
  {
    match s {
      case Prose(text) =>
        NoTagInside(lines, tagOf, at, at + |text|, Open);
      case Conflict(ol, ours, tl, theirs) =>
        var b := SegmentSpan(s, at);
        NoTagInside(lines, tagOf, b.open + 1, b.separator, Separator);
        NoTagInside(lines, tagOf, b.separator + 1, b.close, Close);
    }
  }

  lemma OneFits(tags: seq<Tag>, at: nat, s: Segment)
    requires Fits(tags, at, s)
    ensures Spans(tags, at) == OneSpan(s, at) + Spans(tags, at + SegmentLength(s))
  {
    if s.Prose? {
      SpansSkip(tags, at, at + |s.lines|);
      assert OneSpan(s, at) == [];
    } else {
      SpanScans(tags, SegmentSpan(s, at));
    }
  }

  lemma {:induction false} FittingSpans(tags: seq<Tag>, at: nat, segments: seq<Segment>)
    requires at <= |tags| && Chain(|tags|, FitsIn(tags), at, segments)
    ensures Spans(tags, at) == ExpectedSpans(segments, at)
    decreases |segments|
  {
    if segments != [] {
      var next := at + SegmentLength(segments[0]);
      OneFits(tags, at, segments[0]);
      FittingSpans(tags, next, segments[1..]);
      ExpectedStep(segments, at, Spans(tags, at), Spans(tags, next));
    }
  }

  lemma ExpectedStep(segments: seq<Segment>, at: nat, here: seq<Span>, next: seq<Span>)
    requires segments != [] && here == OneSpan(segments[0], at) + next
    requires next == ExpectedSpans(segments[1..], at + SegmentLength(segments[0]))
    ensures here == ExpectedSpans(segments, at)
  {
  }

  lemma BlocksCons(lines: seq<string>, b: Span, rest: seq<Span>)
    requires b.open < b.separator < b.close < |lines| && Within(rest, |lines|)
    ensures Within([b] + rest, |lines|)
    ensures BlocksOf(lines, [b] + rest) == [BlockOf(lines, b)] + BlocksOf(lines, rest)
  {
  }

  ghost predicate AllRenderable(segments: seq<Segment>, tagOf: string -> Tag) {
    forall k :: 0 <= k < |segments| ==> Renderable(segments[k], tagOf)
  }

  ghost predicate AllMarked(segments: seq<Segment>, tagOf: string -> Tag) {
    forall k :: 0 <= k < |segments| ==> Marked(segments[k], tagOf)
  }

  /** Rendered lines hold the segments one after the other. */
  lemma {:induction false} RenderedPlaced(lines: seq<string>, at: nat, segments: seq<Segment>)
    requires at <= |lines| && lines[at..] == RenderWith(RenderSegment, segments)
    ensures Chain(|lines|, PlacedIn(lines), at, segments)
    decreases |segments|
  {
    if segments == [] {
      assert |lines[at..]| == 0;
    } else {
      RenderedNext(lines, at, segments);
      RenderedPlaced(lines, at + SegmentLength(segments[0]), segments[1..]);
    }
  }

  lemma RenderedNext(lines: seq<string>, at: nat, segments: seq<Segment>)
    requires at <= |lines| && segments != [] && lines[at..] == RenderWith(RenderSegment, segments)
    ensures PlacedOne(lines, at, segments[0])
    ensures lines[at + SegmentLength(segments[0])..] == RenderWith(RenderSegment, segments[1..])
  {
    RenderedTail(lines, at, RenderSegment(segments[0]), RenderWith(RenderSegment, segments[1..]));
    SegmentPlaced(lines, at, segments[0]);
  }

  lemma PlacedFits(lines: seq<string>, tagOf: string -> Tag, at: nat, segments: seq<Segment>)
    requires Chain(|lines|, PlacedIn(lines), at, segments)
    requires AllRenderable(segments, tagOf) && AllMarked(segments, tagOf)
    ensures Chain(|lines|, FitsIn(Tags(lines, tagOf)), at, segments)
  {
    var one, two := PlacedIn(lines), FitsIn(Tags(lines, tagOf));
    forall a: nat, s | s in segments && one(a, s) ensures two(a, s) {
      var k :| 0 <= k < |segments| && segments[k] == s;
      SegmentFits(lines, tagOf, a, segments[k]);
    }
    ChainWeaker(|lines|, one, two, at, segments);
  }

  lemma ConflictBlock(lines: seq<string>, at: nat, s: Segment, spans: seq<Span>)
    requires s.Conflict? && PlacedOne(lines, at, s) && Within(spans, |lines|)
    ensures Within([SegmentSpan(s, at)] + spans, |lines|)
    ensures BlocksOf(lines, [SegmentSpan(s, at)] + spans) == [SegmentBlock(s, at)] + BlocksOf(lines, spans)
  {
    SegmentReads(lines, at, s);
    BlocksCons(lines, SegmentSpan(s, at), spans);
  }

  lemma OneBlock(lines: seq<string>, at: nat, s: Segment, spans: seq<Span>)
    requires PlacedOne(lines, at, s) && Within(spans, |lines|)
    ensures Within(OneSpan(s, at) + spans, |lines|)
    ensures BlocksOf(lines, OneSpan(s, at) + spans)
            == (if s.Conflict? then [SegmentBlock(s, at)] else []) + BlocksOf(lines, spans)
  {
    if s.Conflict? {
      ConflictBlock(lines, at, s, spans);
    } else {
      assert OneSpan(s, at) + spans == spans;
    }
  }

  lemma {:induction false} PlacedBlocks(lines: seq<string>, at: nat, segments: seq<Segment>)
    requires Chain(|lines|, PlacedIn(lines), at, segments)
    ensures Within(ExpectedSpans(segments, at), |lines|)
    ensures BlocksOf(lines, ExpectedSpans(segments, at)) == Expected(segments, at)
    decreases |segments|
  {
    if segments != [] {
      var next := at + SegmentLength(segments[0]);
      PlacedBlocks(lines, next, segments[1..]);
      OneBlock(lines, at, segments[0], ExpectedSpans(segments[1..], next));
    }
  }

  lemma SegmentReads(lines: seq<string>, at: nat, s: Segment)
    requires s.Conflict? && PlacedOne(lines, at, s)
    ensures SegmentSpan(s, at).close < |lines| && BlockOf(lines, SegmentSpan(s, at)) == SegmentBlock(s, at)
  {
    LabelReads(s.oursLabel);
    LabelReads(s.theirsLabel);
    BlockReads(lines, SegmentSpan(s, at), OPEN_MARK + " " + s.oursLabel, s.ours, s.theirs,
               CLOSE_MARK + " " + s.theirsLabel);
  }

  lemma BlockReads(lines: seq<string>, b: Span, open: string, ours: seq<string>, theirs: seq<string>, close: string)
    requires b.open < b.separator < b.close < |lines|
    requires lines[b.open] == open && lines[b.close] == close
    requires lines[b.open + 1..b.separator] == ours && lines[b.separator + 1..b.close] == theirs
    ensures BlockOf(lines, b) == Block(b.open, b.close, Join(ours, '\n'), Join(theirs, '\n'), Label(open), Label(close))
  {
  }

  lemma RenderedTail(lines: seq<string>, at: nat, shown: seq<string>, rest: seq<string>)
    requires at <= |lines| && lines[at..] == shown + rest
    ensures at + |shown| <= |lines| && lines[at..at + |shown|] == shown && lines[at + |shown|..] == rest
  {
    assert |lines[at..]| == |shown| + |rest|;
    assert lines[at..at + |shown|] == lines[at..][..|shown|];
    assert lines[at + |shown|..] == lines[at..][|shown|..];
  }

  /** Round trip: any renderable segments parse back to exactly their conflicts, in order, with the
      right line numbers, sides and labels. */
  lemma RenderParse(segments: seq<Segment>)
    requires AllRenderable(segments, TagOf) && Render(segments) != []
    requires forall i :: 0 <= i < |Render(segments)| ==> '\n' !in Render(segments)[i]
    ensures Parse(Join(Render(segments), '\n')) == Expected(segments, 0)
  {
    var lines := Render(segments);
    SplitJoin(lines, '\n');
    assert lines[0..] == lines;
    forall k | 0 <= k < |segments| ensures Marked(segments[k], TagOf) {
      if segments[k].Conflict? {
        assert Renderable(segments[k], TagOf);
        MarkerTags(segments[k].oursLabel);
        MarkerTags(segments[k].theirsLabel);
      }
    }
    RenderedPlaced(lines, 0, segments);
    PlacedFits(lines, TagOf, 0, segments);
    FittingSpans(Tags(lines, TagOf), 0, segments);
    PlacedBlocks(lines, 0, segments);
  }

  // ---- Carriage returns ----------------------------------------------------------------------------

  predicate EndsWithReturn(line: string) {
    line != "" && line[|line| - 1] == '\r'
  }

  /** A marker with nothing but white space behind it. */
  predicate Bare(mark: string, line: string)
    requires |mark| == 7
  {
    mark <= line && TrimStart(line[7..]) == ""
  }

  lemma {:induction false} TrimStartKeepsEnd(s: string)
    requires s != ""
    ensures TrimStart(s) == "" || TrimStart(s)[|TrimStart(s)| - 1] == s[|s| - 1]
  {
    if IsSpace(s[0]) && |s| > 1 {
      TrimStartKeepsEnd(s[1..]);
    }
  }

  /** Before a CRLF the label patterns stop at the carriage return, so exactly the unlabelled markers match. */
  lemma ReturnHidesLabel(line: string)
    requires EndsWithReturn(line)
    ensures IsOpen(line) <==> Bare(OPEN_MARK, line)
    ensures IsClose(line) <==> Bare(CLOSE_MARK, line)
  {
    if OPEN_MARK <= line || CLOSE_MARK <= line {
      assert line[6] == '<' || line[6] == '>';
      TrimStartKeepsEnd(line[7..]);
    }
  }

  /** Every line that starts with a conflict marker ends in CRLF; the last line of the text need not. */
  predicate MarkersReturn(lines: seq<string>) {
    forall i :: 0 <= i < |lines| && (OPEN_MARK <= lines[i] || CLOSE_MARK <= lines[i]) ==> EndsWithReturn(lines[i])
  }

  /** The kinds of line that are left: labelled markers do not count. */
  function ReturnTagOf(line: string): Tag {
    if Bare(OPEN_MARK, line) then Open
    else if IsSeparator(line) then Separator
    else if Bare(CLOSE_MARK, line) then Close
    else Tag.Plain
  }

  lemma ReturnTags(line: string)
    requires OPEN_MARK <= line || CLOSE_MARK <= line ==> EndsWithReturn(line)
    ensures TagOf(line) == ReturnTagOf(line)
  {
    if EndsWithReturn(line) {
      ReturnHidesLabel(line);
    }
  }

  lemma SameTags(lines: seq<string>, f: string -> Tag, g: string -> Tag)
    requires forall i :: 0 <= i < |lines| ==> f(lines[i]) == g(lines[i])
    ensures ParseLines(lines, f) == ParseLines(lines, g)
  {
    assert Tags(lines, f) == Tags(lines, g);
  }

  /** So a text whose marker lines end in CRLF is parsed as if labelled markers were plain text: it has a
      block exactly if an unlabelled open line, a separator and an unlabelled close line occur in order. */
  lemma ReturnParseIff(content: string)
    requires MarkersReturn(Split(content, '\n'))
    ensures Parse(content) == ParseLines(Split(content, '\n'), ReturnTagOf)
    ensures Parse(content) != [] <==> HasConflict(Split(content, '\n'), ReturnTagOf)
  {
    var lines := Split(content, '\n');
    forall i | 0 <= i < |lines| ensures TagOf(lines[i]) == ReturnTagOf(lines[i]) {
      ReturnTags(lines[i]);
    }
    SameTags(lines, TagOf, ReturnTagOf);
    BlocksIffConflict(lines, ReturnTagOf);
  }

  function Labelled(mark: string, name: string): string {
    mark + " " + name
  }

  /** A small conflict with labels, with `eol` in front of every newline. */
  function LabelledConflict(a: string, b: string, eol: string): seq<string> {
    [Labelled(OPEN_MARK, a) + eol, SEPARATOR_MARK + eol, Labelled(CLOSE_MARK, b) + eol, ""]
  }

  /** The same conflict is found with LF and overlooked with CRLF, whatever its labels. */
  lemma ReturnHidesConflict(a: string, b: string)
    requires OneLine(a) && OneLine(b) && TrimStart(a) != ""
    ensures Parse(Join(LabelledConflict(a, b, ""), '\n')) == [Block(0, 2, "", "", Trim(a), Trim(b))]
    ensures Parse(Join(LabelledConflict(a, b, "\r"), '\n')) == []
  {
    FoundWithoutReturn(a, b);
    var lines := LabelledConflict(a, b, "\r");
    LabelledLines(a, b);
    SplitJoin(lines, '\n');
    forall i | 0 <= i < |lines| ensures !TagOf(lines[i]).Open? {
      OnlyFirstOpens(a, b, i);
    }
    NoOpenNoSpans(Tags(lines, TagOf), 0);
  }

  lemma LabelledLines(a: string, b: string)
    requires OneLine(a) && OneLine(b)
    ensures forall i :: 0 <= i < 4 ==> '\n' !in LabelledConflict(a, b, "\r")[i]
    ensures forall i :: 0 <= i < 4 ==> '\n' !in LabelledConflict(a, b, "")[i]
  {
  }

  lemma OnlyFirstOpens(a: string, b: string, i: nat)
    requires OneLine(a) && TrimStart(a) != "" && i < 4
    ensures !TagOf(LabelledConflict(a, b, "\r")[i]).Open?
  {
    var line := LabelledConflict(a, b, "\r")[i];
    if i == 0 {
      LabelledIsHidden(a);
    } else {
      assert i == 3 || line[0] == '=' || line[0] == '>';
    }
  }

  /** In front of a CRLF a label hides the open marker. */
  lemma LabelledIsHidden(a: string)
    requires TrimStart(a) != ""
    ensures !TagOf(Labelled(OPEN_MARK, a) + "\r").Open?
  {
    var line := Labelled(OPEN_MARK, a) + "\r";
    TrimStartLonger(a, "\r");
    LabelBehind(a + "\r");
    ConcatAssociates(OPEN_MARK + " ", a, "\r");
    ConcatAssociates(OPEN_MARK, " ", a + "\r");
    HiddenMarker(line);
  }

  lemma LabelBehind(s: string)
    requires TrimStart(s) != ""
    ensures !Bare(OPEN_MARK, OPEN_MARK + (" " + s))
  {
    assert (OPEN_MARK + (" " + s))[7..] == " " + s;
    assert (" " + s)[1..] == s;
  }

  lemma HiddenMarker(line: string)
    requires EndsWithReturn(line) && !Bare(OPEN_MARK, line)
    ensures !TagOf(line).Open?
  {
    TagIsPattern(line);
    ReturnHidesLabel(line);
  }

  lemma {:induction false} TrimStartLonger(a: string, more: string)
    requires TrimStart(a) != ""
    ensures TrimStart(a + more) != ""
  {
    if IsSpace(a[0]) {
      assert (a + more)[1..] == a[1..] + more;
      TrimStartLonger(a[1..], more);
    }
  }

  lemma FoundWithoutReturn(a: string, b: string)
    requires OneLine(a) && OneLine(b)
    ensures Parse(Join(LabelledConflict(a, b, ""), '\n')) == [Block(0, 2, "", "", Trim(a), Trim(b))]
  {
    SmallRender(a, b);
    LabelledLines(a, b);
    SmallRenderable(Conflict(a, [], b, []), Prose([""]));
    RenderParse([Conflict(a, [], b, []), Prose([""])]);
  }

  lemma SmallRender(a: string, b: string)
    ensures Render([Conflict(a, [], b, []), Prose([""])]) == LabelledConflict(a, b, "")
    ensures Expected([Conflict(a, [], b, []), Prose([""])], 0) == [Block(0, 2, "", "", Trim(a), Trim(b))]
  {
    RenderTwo(Conflict(a, [], b, []), Prose([""]));
    ConflictLines(a, b);
  }

  lemma SmallRenderable(s: Segment, t: Segment)
    requires s.Conflict? && s.ours == [] && s.theirs == [] && OneLine(s.oursLabel) && OneLine(s.theirsLabel)
    requires t == Prose([""])
    ensures AllRenderable([s, t], TagOf)
  {
    assert !TagOf("").Open?;
    assert Renderable(s, TagOf) && Renderable(t, TagOf);
  }

  lemma ConflictLines(a: string, b: string)
    ensures RenderSegment(Conflict(a, [], b, [])) + [""] == LabelledConflict(a, b, "")
  {
    var open, close := Labelled(OPEN_MARK, a), Labelled(CLOSE_MARK, b);
    assert open + "" == open && SEPARATOR_MARK + "" == SEPARATOR_MARK && close + "" == close;
    FourLines(open, SEPARATOR_MARK, close);
  }

  lemma FourLines(x: string, y: string, z: string)
    ensures [x] + [] + [y] + [] + [z] + [""] == [x, y, z, ""]
  {
  }

  lemma RenderTwo(s: Segment, t: Segment)
    ensures Render([s, t]) == RenderSegment(s) + RenderSegment(t)
    ensures t.Prose? && s.Conflict? ==> Expected([s, t], 0) == [SegmentBlock(s, 0)]
  {
    assert [s, t][1..] == [t] && [t][1..] == [];
    assert RenderWith(RenderSegment, [t]) == RenderSegment(t) + [];
    assert Expected([t], SegmentLength(s)) == (if t.Conflict? then [SegmentBlock(t, SegmentLength(s))] else []) + [];
  }

  lemma JoinFour(a: string, b: string, c: string)
    ensures Join([a, b, c, ""], '\n') == a + ['\n'] + b + ['\n'] + c + ['\n']
  {
    assert [a, b, c, ""][1..] == [b, c, ""] && [b, c, ""][1..] == [c, ""] && [c, ""][1..] == [""];
    assert Join([c, ""], '\n') == c + ['\n'];
    assert Join([b, c, ""], '\n') == b + ['\n'] + (c + ['\n']);
    assert a + ['\n'] + (b + ['\n'] + (c + ['\n'])) == a + ['\n'] + b + ['\n'] + c + ['\n'];
  }

  /** In full: one text with two kinds of line end. */
  lemma ReturnExample()
    ensures Parse("<<<<<<< a\n=======\n>>>>>>> b\n") == [Block(0, 2, "", "", "a", "b")]
    ensures Parse("<<<<<<< a\r\n=======\r\n>>>>>>> b\r\n") == []
  {
    LetterLabel('a');
    LetterLabel('b');
    ReturnHidesConflict(['a'], ['b']);
    SpelledLf();
    SpelledCrlf();
  }

  lemma LetterLabel(c: char)
    requires 'a' <= c <= 'z'
    ensures OneLine([c]) && TrimStart([c]) == [c] && Trim([c]) == [c]
  {
  }

  lemma SpelledText(a: string, b: string, c: string, d: string, e: string, f: string)
    requires d == a + ['\n'] && e == b + ['\n'] && f == c + ['\n']
    ensures Join([a, b, c, ""], '\n') == d + e + f
  {
    JoinFour(a, b, c);
  }

  lemma SpelledLf()
    ensures Join(LabelledConflict("a", "b", ""), '\n') == "<<<<<<< a\n=======\n>>>>>>> b\n"
  {
    assert OPEN_MARK + " " + "a" + "" == "<<<<<<< a";
    assert CLOSE_MARK + " " + "b" + "" == ">>>>>>> b";
    assert SEPARATOR_MARK + "" == "=======";
    SpelledText("<<<<<<< a", "=======", ">>>>>>> b", "<<<<<<< a\n", "=======\n", ">>>>>>> b\n");
  }

  lemma SpelledCrlf()
    ensures Join(LabelledConflict("a", "b", "\r"), '\n') == "<<<<<<< a\r\n=======\r\n>>>>>>> b\r\n"
  {
    assert OPEN_MARK + " " + "a" + "\r" == "<<<<<<< a\r";
    assert CLOSE_MARK + " " + "b" + "\r" == ">>>>>>> b\r";
    assert SEPARATOR_MARK + "\r" == "=======\r";
    SpelledText("<<<<<<< a\r", "=======\r", ">>>>>>> b\r", "<<<<<<< a\r\n", "=======\r\n", ">>>>>>> b\r\n");
  }

  // ---- The parser spelled out ------------------------------------------------------------------------

  /** From `k` on, nothing in the line ends a line. */
  predicate LabelFrom(line: string, k: nat) {
    forall i :: k <= i < |line| ==> line[i] !in {'\n', '\r', '\U{2028}', '\U{2029}'}
  }

  predicate SpacesTo(line: string, k: nat) {
    k <= |line| && forall i :: 7 <= i < k ==> IsSpace(line[i])
  }

  lemma MarkIff(mark: string, line: string)
    requires |mark| == 7
    ensures mark <= line && OneLine(TrimStart(line[7..])) <==>
            mark <= line && exists k: nat :: 7 <= k && SpacesTo(line, k) && LabelFrom(line, k)
  {
    if mark <= line {
      var lo := TrimStartIs(line[7..]);
      assert TrimStart(line[7..]) == line[7 + lo..];
      forall i | 7 <= i < 7 + lo ensures IsSpace(line[i]) {
        assert line[i] == line[7..][i - 7];
      }
      if OneLine(TrimStart(line[7..])) {
        assert SpacesTo(line, 7 + lo);
        forall i | 7 + lo <= i < |line| ensures line[i] !in {'\n', '\r', '\U{2028}', '\U{2029}'} {
          assert line[i] == line[7 + lo..][i - 7 - lo];
        }
        assert LabelFrom(line, 7 + lo);
      }
      if k: nat :| 7 <= k && SpacesTo(line, k) && LabelFrom(line, k) {
        if 7 + lo < k {
          assert line[7 + lo] == line[7..][lo];
        }
      }
    }
  }

  /** The three patterns by characters: seven times the mark, then blanks, then a label in the rest of the line, or
      nothing behind a separator. */
  lemma PatternsSpelled(line: string)
    ensures TagOf(line).Open? <==>
            "<<<<<<<" <= line && exists k: nat :: 7 <= k && SpacesTo(line, k) && LabelFrom(line, k)
    ensures TagOf(line).Close? <==>
            ">>>>>>>" <= line && exists k: nat :: 7 <= k && SpacesTo(line, k) && LabelFrom(line, k)
    ensures TagOf(line).Separator? <==> "=======" <= line && forall i :: 7 <= i < |line| ==> IsSpace(line[i])
  {
    TagIsPattern(line);
    MarkIff(OPEN_MARK, line);
    MarkIff(CLOSE_MARK, line);
    SeparatorIff(line);
  }

  lemma SeparatorIff(line: string)
    ensures IsSeparator(line) <==> SEPARATOR_MARK <= line && forall i :: 7 <= i < |line| ==> IsSpace(line[i])
  {
    if SEPARATOR_MARK <= line {
      var lo := TrimStartIs(line[7..]);
      forall i | 7 <= i < |line| ensures line[i] == line[7..][i - 7] {
      }
      assert lo < |line[7..]| ==> !IsSpace(line[7 + lo]);
    }
  }

  /** A block in terms of the lines: its marker lines, with the first separator, at `s`, and the first close line
      behind it, its two sides, and its labels. */
  ghost predicate BlockAtLines(lines: seq<string>, tagOf: string -> Tag, b: Block, s: nat) {
    && b.startLine < s < b.endLine < |lines|
    && tagOf(lines[b.startLine]).Open? && tagOf(lines[s]).Separator? && tagOf(lines[b.endLine]).Close?
    && (forall j :: b.startLine < j < s ==> !tagOf(lines[j]).Separator?)
    && (forall j :: s < j < b.endLine ==> !tagOf(lines[j]).Close?)
    && b.ours == Join(lines[b.startLine + 1..s], '\n') && b.theirs == Join(lines[s + 1..b.endLine], '\n')
    && b.oursLabel == Label(lines[b.startLine]) && b.theirsLabel == Label(lines[b.endLine])
  }

  ghost predicate InBlocks(blocks: seq<Block>, x: int) {
    exists k :: 0 <= k < |blocks| && blocks[k].startLine <= x <= blocks[k].endLine
  }

  /** A label is what stands behind the mark, without the white space around it. */
  lemma LabelSpelled(line: string)
    requires !TagOf(line).Plain?
    ensures |line| >= 7 && Label(line) == Trim(line[7..])
  {
    PatternsSpelled(line);
    TrimStartTwice(line[7..]);
  }

  lemma BlockSpelled(lines: seq<string>, tagOf: string -> Tag, k: nat)
    requires k < |ParseLines(lines, tagOf)|
    ensures exists s: nat :: BlockAtLines(lines, tagOf, ParseLines(lines, tagOf)[k], s)
  {
    var tags := Tags(lines, tagOf);
    var b := Spans(tags, 0)[k];
    SpansWithin(lines, tagOf);
    SpansAreSpans(tags, 0, k);
    forall j: nat | j < |lines| ensures Tight(tags, b, j) {
      SpansTight(tags, 0, k, j);
    }
    SpanAtLines(lines, tagOf, b);
  }

  lemma SpanAtLines(lines: seq<string>, tagOf: string -> Tag, b: Span)
    requires IsSpan(Tags(lines, tagOf), b)
    requires forall j: nat :: j < |lines| ==> Tight(Tags(lines, tagOf), b, j)
    ensures BlockAtLines(lines, tagOf, BlockOf(lines, b), b.separator)
  {
    forall j: nat | j < |lines|
      ensures b.open < j < b.separator ==> !tagOf(lines[j]).Separator?
      ensures b.separator < j < b.close ==> !tagOf(lines[j]).Close?
    {
      assert Tight(Tags(lines, tagOf), b, j);
    }
  }

  /** Open line `x`, separator `s` and close line `c` follow each other. */
  ghost predicate InOrder(lines: seq<string>, tagOf: string -> Tag, x: nat, s: nat, c: nat) {
    x < s < c < |lines| && tagOf(lines[x]).Open? && tagOf(lines[s]).Separator? && tagOf(lines[c]).Close?
  }

  /** No open line that can be finished is overlooked. */
  lemma NoneOverlooked(lines: seq<string>, tagOf: string -> Tag, x: nat, s: nat, c: nat)
    requires InOrder(lines, tagOf, x, s, c)
    ensures InBlocks(ParseLines(lines, tagOf), x)
  {
    var tags := Tags(lines, tagOf);
    InsideStaysInside(lines, tagOf, x);
    assert CanFinish(tags, x + 1);
    if !InSome(Spans(tags, 0), x) {
      SpansCover(tags, 0, x);
    }
  }

  lemma InsideStaysInside(lines: seq<string>, tagOf: string -> Tag, x: int)
    ensures InSome(Spans(Tags(lines, tagOf), 0), x) ==> InBlocks(ParseLines(lines, tagOf), x)
  {
    var spans, blocks := Spans(Tags(lines, tagOf), 0), ParseLines(lines, tagOf);
    SpansWithin(lines, tagOf);
    if k :| 0 <= k < |spans| && spans[k].open <= x <= spans[k].close {
      assert blocks[k].startLine <= x <= blocks[k].endLine;
    }
  }

  lemma BlocksApart(lines: seq<string>, tagOf: string -> Tag, j: nat, k: nat)
    requires j < k < |ParseLines(lines, tagOf)|
    ensures ParseLines(lines, tagOf)[j].endLine < ParseLines(lines, tagOf)[k].startLine
  {
    SpansWithin(lines, tagOf);
    SpansOrdered(Tags(lines, tagOf), 0);
  }

  ghost predicate AtLines(lines: seq<string>, tagOf: string -> Tag, b: Block) {
    exists s: nat :: BlockAtLines(lines, tagOf, b, s)
  }

  ghost predicate Apart(blocks: seq<Block>, from: nat) {
    && (forall k :: 0 <= k < |blocks| ==> from <= blocks[k].startLine <= blocks[k].endLine)
    && forall j, k :: 0 <= j < k < |blocks| ==> blocks[j].endLine < blocks[k].startLine
  }

  /** From line `from` on: every block consists of the first separator and then the first close line behind an open
      line, and of what stands between them; blocks come in order and apart; every open line that a separator and a
      close line follow is in one of them. */
  ghost predicate IsParse(lines: seq<string>, tagOf: string -> Tag, from: nat, blocks: seq<Block>) {
    && (forall k :: 0 <= k < |blocks| ==> AtLines(lines, tagOf, blocks[k]))
    && Apart(blocks, from)
    && forall x: nat, s: nat, c: nat :: from <= x && InOrder(lines, tagOf, x, s, c) ==> InBlocks(blocks, x)
  }

  /** The parser returns such a list for every text. */
  lemma ParseSpelled(lines: seq<string>, tagOf: string -> Tag)
    ensures IsParse(lines, tagOf, 0, ParseLines(lines, tagOf))
  {
    var blocks := ParseLines(lines, tagOf);
    forall k | 0 <= k < |blocks| ensures AtLines(lines, tagOf, blocks[k]) {
      BlockSpelled(lines, tagOf, k);
    }
    forall j, k | 0 <= j < k < |blocks| ensures blocks[j].endLine < blocks[k].startLine {
      BlocksApart(lines, tagOf, j, k);
    }
    forall x: nat, s: nat, c: nat | InOrder(lines, tagOf, x, s, c) ensures InBlocks(blocks, x) {
      NoneOverlooked(lines, tagOf, x, s, c);
    }
    forall k | 0 <= k < |blocks| ensures blocks[k].startLine <= blocks[k].endLine {
      assert AtLines(lines, tagOf, blocks[k]);
    }
  }

  /** And there is only one such list. */
  lemma {:induction false} ParseUnique(lines: seq<string>, tagOf: string -> Tag, from: nat,
                                       a: seq<Block>, b: seq<Block>)
    requires IsParse(lines, tagOf, from, a) && IsParse(lines, tagOf, from, b)
    ensures a == b
    decreases |a|
  {
    if a == [] {
      NoBlockNoLine(lines, tagOf, from, b);
    } else {
      SameFirst(lines, tagOf, from, a, b);
      var next, c, d := a[0].endLine + 1, a[1..], b[1..];
      ParseRest(lines, tagOf, from, a, next, c);
      ParseRest(lines, tagOf, from, b, next, d);
      ParseUnique(lines, tagOf, next, c, d);
      SameWhole(a, b);
    }
  }

  lemma SameWhole(a: seq<Block>, b: seq<Block>)
    requires a != [] && b != [] && a[0] == b[0] && a[1..] == b[1..]
    ensures a == b
  {
    assert a == [a[0]] + a[1..] && b == [b[0]] + b[1..];
  }

  /** The first block is where the first line stands that opens one. */
  lemma FirstNotLater(lines: seq<string>, tagOf: string -> Tag, from: nat, a: seq<Block>, b: seq<Block>)
    requires IsParse(lines, tagOf, from, a) && IsParse(lines, tagOf, from, b) && a != []
    ensures b != [] && b[0].startLine <= a[0].startLine
  {
    assert AtLines(lines, tagOf, a[0]);
    var s: nat :| BlockAtLines(lines, tagOf, a[0], s);
    assert InOrder(lines, tagOf, a[0].startLine, s, a[0].endLine);
    var k :| 0 <= k < |b| && b[k].startLine <= a[0].startLine <= b[k].endLine;
    if k > 0 {
      assert b[0].endLine < b[k].startLine;
    }
  }

  lemma SameFirst(lines: seq<string>, tagOf: string -> Tag, from: nat, a: seq<Block>, b: seq<Block>)
    requires IsParse(lines, tagOf, from, a) && IsParse(lines, tagOf, from, b) && a != []
    ensures b != [] && a[0] == b[0]
  {
    FirstNotLater(lines, tagOf, from, a, b);
    FirstNotLater(lines, tagOf, from, b, a);
    SameStartSameBlock(lines, tagOf, a[0], b[0]);
  }

  lemma NoBlockNoLine(lines: seq<string>, tagOf: string -> Tag, from: nat, b: seq<Block>)
    requires IsParse(lines, tagOf, from, []) && IsParse(lines, tagOf, from, b)
    ensures b == []
  {
    if b != [] {
      FirstNotLater(lines, tagOf, from, b, []);
    }
  }

  lemma SameStartSameBlock(lines: seq<string>, tagOf: string -> Tag, a: Block, b: Block)
    requires AtLines(lines, tagOf, a) && AtLines(lines, tagOf, b) && a.startLine == b.startLine
    ensures a == b
  {
    var s: nat :| BlockAtLines(lines, tagOf, a, s);
    var t: nat :| BlockAtLines(lines, tagOf, b, t);
    SameSeparator(lines, tagOf, a, b, s, t);
    SameClose(lines, tagOf, a, b, s);
  }

  lemma SameSeparator(lines: seq<string>, tagOf: string -> Tag, a: Block, b: Block, s: nat, t: nat)
    requires BlockAtLines(lines, tagOf, a, s) && BlockAtLines(lines, tagOf, b, t) && a.startLine == b.startLine
    ensures s == t
  {
  }

  lemma SameClose(lines: seq<string>, tagOf: string -> Tag, a: Block, b: Block, s: nat)
    requires BlockAtLines(lines, tagOf, a, s) && BlockAtLines(lines, tagOf, b, s) && a.startLine == b.startLine
    ensures a == b
  {
    assert a.endLine == b.endLine;
  }

  lemma ParseRest(lines: seq<string>, tagOf: string -> Tag, from: nat, a: seq<Block>, next: nat, rest: seq<Block>)
    requires IsParse(lines, tagOf, from, a) && a != [] && next == a[0].endLine + 1 && rest == a[1..]
    ensures IsParse(lines, tagOf, next, rest)
  {
    forall x: nat, s: nat, c: nat | a[0].endLine < x && InOrder(lines, tagOf, x, s, c) ensures InBlocks(a[1..], x) {
      InRest(a, x);
    }
    ApartRest(a, from);
  }

  lemma InRest(a: seq<Block>, x: nat)
    requires a != [] && InBlocks(a, x) && a[0].endLine < x
    ensures InBlocks(a[1..], x)
  {
    var k :| 0 <= k < |a| && a[k].startLine <= x <= a[k].endLine;
    assert a[1..][k - 1] == a[k];
  }

  lemma ApartRest(a: seq<Block>, from: nat)
    requires a != [] && Apart(a, from)
    ensures Apart(a[1..], a[0].endLine + 1)
  {
    forall k | 0 <= k < |a[1..]| ensures a[1..][k] == a[k + 1] && a[0].endLine < a[k + 1].startLine {
    }
  }
}
