/** Resolving conflict blocks by splicing, last block first, and what is left afterwards. */
module ConflictResolve {
  import opened Text
  import opened MarkerScan
  import opened ConflictMarkers

  datatype Pick = Ours | Theirs | Custom(choose: Block -> string)

  function Chosen(pick: Pick, block: Block): string {
    match pick
    case Ours => block.ours
    case Theirs => block.theirs
    case Custom(choose) => choose(block)
  }

  /** The lines that replace a block: at most one trailing empty line is dropped. */
  function ReplacementLines(text: string): seq<string> {
    var lines := Split(text, '\n');
    if lines[|lines| - 1] == "" then lines[..|lines| - 1] else lines
  }

  function Replacements(pick: Pick, blocks: seq<Block>): (reps: seq<seq<string>>)
    ensures |reps| == |blocks|
    ensures forall k :: 0 <= k < |blocks| ==> reps[k] == ReplacementLines(Chosen(pick, blocks[k]))
  {
    seq(|blocks|, k requires 0 <= k < |blocks| => ReplacementLines(Chosen(pick, blocks[k])))
  }

  // ---- One forward pass ------------------------------------------------------------------------

  /** The first line after block `k - 1`. */
  function FrontEnd(spans: seq<Span>, k: nat): nat
    requires k <= |spans|
  {
    if k == 0 then 0 else spans[k - 1].close + 1
  }

  lemma FrontEndWithin(spans: seq<Span>, n: nat, k: nat)
    requires Ordered(spans, 0, n) && k <= |spans|
    ensures FrontEnd(spans, k) <= n
    ensures k < |spans| ==> FrontEnd(spans, k) <= spans[k].open < spans[k].close < n
  {
  }

  /** `lines.slice(from, to)`. */
  function Slice(lines: seq<string>, from: nat, to: nat): seq<string> {
    if from <= to <= |lines| then lines[from..to] else []
  }

  /** The lines outside the blocks that stand just before block `k`, or after the last one. */
  function Kept(lines: seq<string>, spans: seq<Span>, k: nat): seq<string>
    requires k <= |spans|
  {
    Slice(lines, FrontEnd(spans, k), if k == |spans| then |lines| else spans[k].open)
  }

  /** From block `k` on: keeps every line outside the blocks and puts each block's replacement in its place. */
  function Forward(lines: seq<string>, spans: seq<Span>, reps: seq<seq<string>>, k: nat): seq<string>
    requires |reps| == |spans| && k <= |spans|
    decreases |spans| - k
  {
    if k == |spans| then Kept(lines, spans, k)
    else Kept(lines, spans, k) + reps[k] + Forward(lines, spans, reps, k + 1)
  }

  function Marks(lines: seq<string>, mark: bool): (marks: seq<bool>)
    ensures |marks| == |lines|
  {
    seq(|lines|, _ => mark)
  }

  /** Which lines of the forward pass come from replacements. */
  function Replaced(lines: seq<string>, spans: seq<Span>, reps: seq<seq<string>>, k: nat): (marks: seq<bool>)
    requires |reps| == |spans| && k <= |spans|
    ensures |marks| == |Forward(lines, spans, reps, k)|
    decreases |spans| - k
  {
    if k == |spans| then Marks(Kept(lines, spans, k), false)
    else Marks(Kept(lines, spans, k), false) + Marks(reps[k], true) + Replaced(lines, spans, reps, k + 1)
  }

  // ---- Resolving, as the source does -----------------------------------------------------------

  /** `[...blocks].sort((a, b) => b.startLine - a.startLine)`. */
  function SortDescending(blocks: seq<Block>): seq<Block> {
    if blocks == [] then [] else Insert(blocks[0], SortDescending(blocks[1..]))
  }

  function Insert(block: Block, sorted: seq<Block>): seq<Block> {
    if sorted == [] || sorted[0].startLine <= block.startLine then [block] + sorted
    else [sorted[0]] + Insert(block, sorted[1..])
  }

  ghost predicate Ascending(blocks: seq<Block>) {
    forall j, k :: 0 <= j < k < |blocks| ==> blocks[j].startLine < blocks[k].startLine
  }

  lemma {:induction false} InsertLast(block: Block, sorted: seq<Block>)
    requires forall k :: 0 <= k < |sorted| ==> block.startLine < sorted[k].startLine
    ensures Insert(block, sorted) == sorted + [block]
  {
    if sorted != [] {
      InsertLast(block, sorted[1..]);
    }
  }

  /** The blocks of a parse come in ascending order, so sorting them is reversing them. */
  lemma {:induction false} SortReverses(blocks: seq<Block>)
    requires Ascending(blocks)
    ensures var sorted := SortDescending(blocks);
            |sorted| == |blocks| && forall k :: 0 <= k < |blocks| ==> sorted[k] == blocks[|blocks| - 1 - k]
  {
    if blocks != [] {
      SortReverses(blocks[1..]);
      InsertLast(blocks[0], SortDescending(blocks[1..]));
    }
  }

  /** `lines.splice(from, to - from, ...rep)`. */
  function Spliced(lines: seq<string>, from: nat, to: nat, rep: seq<string>): seq<string> {
    if from <= to <= |lines| then lines[..from] + rep + lines[to..] else lines
  }

  /** The lines after splicing blocks `k` and later, the last one first. */
  ghost function SplicedFrom(lines: seq<string>, spans: seq<Span>, reps: seq<seq<string>>, k: nat): seq<string>
    requires |reps| == |spans| && k <= |spans|
    decreases |spans| - k
  {
    if k == |spans| then lines
    else Spliced(SplicedFrom(lines, spans, reps, k + 1), spans[k].open, spans[k].close + 1, reps[k])
  }

  lemma SplicedNext(lines: seq<string>, spans: seq<Span>, reps: seq<seq<string>>, k: nat)
    requires |reps| == |spans| && k < |spans|
    ensures SplicedFrom(lines, spans, reps, k)
            == Spliced(SplicedFrom(lines, spans, reps, k + 1), spans[k].open, spans[k].close + 1, reps[k])
  {
  }

  /** Splicing the last blocks leaves the front part alone and the rest as a forward pass would. */
  lemma {:induction false} SplicedIsForward(lines: seq<string>, spans: seq<Span>, reps: seq<seq<string>>, k: nat)
    requires Ordered(spans, 0, |lines|) && |reps| == |spans| && k <= |spans|
    ensures FrontEnd(spans, k) <= |lines|
    ensures SplicedFrom(lines, spans, reps, k) == lines[..FrontEnd(spans, k)] + Forward(lines, spans, reps, k)
    decreases |spans| - k
  {
    FrontEndWithin(spans, |lines|, k);
    var front := FrontEnd(spans, k);
    if k == |spans| {
      SplitAt(lines, front);
    } else {
      SplicedIsForward(lines, spans, reps, k + 1);
      SplicedStep(lines, spans, reps, k, front, Forward(lines, spans, reps, k + 1));
      ForwardNext(lines, spans, reps, k);
    }
  }

  lemma SplicedStep(lines: seq<string>, spans: seq<Span>, reps: seq<seq<string>>, k: nat, front: nat, rest: seq<string>)
    requires |reps| == |spans| && k < |spans|
    requires front <= spans[k].open <= spans[k].close < |lines|
    requires SplicedFrom(lines, spans, reps, k + 1) == lines[..spans[k].close + 1] + rest
    ensures SplicedFrom(lines, spans, reps, k)
         == lines[..front] + (lines[front..spans[k].open] + reps[k] + rest)
  {
    SplicedNext(lines, spans, reps, k);
    SpliceOne(lines, front, spans[k].open, spans[k].close + 1, reps[k], rest);
  }

  lemma ForwardNext(lines: seq<string>, spans: seq<Span>, reps: seq<seq<string>>, k: nat)
    requires Ordered(spans, 0, |lines|) && |reps| == |spans| && k < |spans|
    ensures FrontEnd(spans, k) <= spans[k].open <= |lines|
    ensures Forward(lines, spans, reps, k)
         == lines[FrontEnd(spans, k)..spans[k].open] + reps[k] + Forward(lines, spans, reps, k + 1)
  {
    FrontEndWithin(spans, |lines|, k);
  }

  lemma SplitAt(lines: seq<string>, k: nat)
    requires k <= |lines|
    ensures lines == lines[..k] + lines[k..]
  {
  }

  lemma SpliceOne(lines: seq<string>, front: nat, from: nat, to: nat, rep: seq<string>, rest: seq<string>)
    requires front <= from <= to <= |lines|
    ensures Spliced(lines[..to] + rest, from, to, rep) == lines[..front] + (lines[front..from] + rep + rest)
  {
    var now := lines[..to] + rest;
    assert now[..from] == lines[..front] + lines[front..from] && now[to..] == rest;
  }

  /** Splits the chosen text and drops one trailing empty line. */
  method SplitReplacement(text: string) returns (lines: seq<string>)
    ensures lines == ReplacementLines(text)
  {
    lines := Split(text, '\n');
    if lines[|lines| - 1] == "" {
      lines := lines[..|lines| - 1];
    }
  }

  /** Parsed blocks come in order and name the lines of their spans. */
  lemma ParsedBlocks(lines: seq<string>, tagOf: string -> Tag)
    ensures var spans, blocks := Spans(Tags(lines, tagOf), 0), ParseLines(lines, tagOf);
            Ordered(spans, 0, |lines|) && Numbered(blocks, spans)
  {
    SpansOrdered(Tags(lines, tagOf), 0);
    SpansWithin(lines, tagOf);
  }

  ghost predicate Numbered(blocks: seq<Block>, spans: seq<Span>) {
    && |blocks| == |spans|
    && forall k :: 0 <= k < |blocks| ==>
         blocks[k].startLine == spans[k].open && blocks[k].endLine == spans[k].close
  }

  lemma OrderedAscends(blocks: seq<Block>, spans: seq<Span>, n: nat)
    requires Ordered(spans, 0, n) && Numbered(blocks, spans)
    ensures Ascending(blocks)
  {
    forall j, k | 0 <= j < k < |blocks| ensures blocks[j].startLine < blocks[k].startLine {
      assert spans[j].close < spans[k].open;
    }
  }

  /** The replacement loop over the sorted blocks. */
  method SpliceSorted(original: seq<string>, ghost spans: seq<Span>, ghost reps: seq<seq<string>>,
                      sorted: seq<Block>, pick: Pick)
    returns (lines: seq<string>)
    requires |sorted| == |spans| == |reps|
    requires forall n :: 0 <= n < |sorted| ==> MatchesBlock(sorted[n], pick, spans, reps, |spans| - 1 - n)
    ensures lines == SplicedFrom(original, spans, reps, 0)
  {
    lines := original;
    for n := 0 to |sorted|
      invariant lines == SplicedFrom(original, spans, reps, |spans| - n)
    {
      var block := sorted[n];
      var replacementLines := SplitReplacement(Chosen(pick, block));
      SpliceMatched(original, spans, reps, block, pick, |spans| - 1 - n);
      lines := Spliced(lines, block.startLine, block.endLine + 1, replacementLines);
    }
  }

  ghost predicate MatchesBlock(block: Block, pick: Pick, spans: seq<Span>, reps: seq<seq<string>>, k: int) {
    && 0 <= k < |spans| == |reps|
    && block.startLine == spans[k].open && block.endLine == spans[k].close
    && reps[k] == ReplacementLines(Chosen(pick, block))
  }

  /** Splicing in a block's replacement is the next of the splices. */
  lemma SpliceMatched(lines: seq<string>, spans: seq<Span>, reps: seq<seq<string>>, block: Block, pick: Pick, k: nat)
    requires |reps| == |spans| && MatchesBlock(block, pick, spans, reps, k)
    ensures SplicedFrom(lines, spans, reps, k)
         == Spliced(SplicedFrom(lines, spans, reps, k + 1), block.startLine, block.endLine + 1,
                    ReplacementLines(Chosen(pick, block)))
  {
    SplicedNext(lines, spans, reps, k);
  }

  /** Descending in-place splices give exactly one forward pass over the original lines. */
  method SpliceBlocks(original: seq<string>, ghost spans: seq<Span>, blocks: seq<Block>, pick: Pick)
    returns (lines: seq<string>)
    requires Ordered(spans, 0, |original|) && Numbered(blocks, spans)
    ensures lines == Forward(original, spans, Replacements(pick, blocks), 0)
  {
    ghost var reps := Replacements(pick, blocks);
    OrderedAscends(blocks, spans, |original|);
    SortReverses(blocks);
    var sorted := SortDescending(blocks);
    lines := SpliceSorted(original, spans, reps, sorted, pick);
    SplicedIsForward(original, spans, reps, 0);
  }

  /** The forward pass over the blocks a text parses to. */
  function ResolveLines(lines: seq<string>, tagOf: string -> Tag, pick: Pick): seq<string> {
    ParsedBlocks(lines, tagOf);
    Forward(lines, Spans(Tags(lines, tagOf), 0), Replacements(pick, ParseLines(lines, tagOf)), 0)
  }

  function Resolve(content: string, pick: Pick): string {
    if Parse(content) == [] then content else Join(ResolveLines(Split(content, '\n'), TagOf, pick), '\n')
  }

  method ResolveConflictMarkers(content: string, pick: Pick) returns (resolved: string)
    ensures resolved == Resolve(content, pick)
  {
    var blocks := ParseConflictMarkers(content);
    if |blocks| == 0 {
      return content;
    }
    ParsedBlocks(Split(content, '\n'), TagOf);
    var lines := SpliceBlocks(Split(content, '\n'), Spans(Tags(Split(content, '\n'), TagOf), 0), blocks, pick);
    return Join(lines, '\n');
  }

  // ---- What is left ------------------------------------------------------------------------------

  ghost predicate NoOpenLine(lines: seq<string>, tagOf: string -> Tag) {
    forall k :: 0 <= k < |lines| ==> !tagOf(lines[k]).Open?
  }

  /** From `cut` on the result is an unchanged tail without blocks; before it, no kept line is open. */
  ghost predicate CleanUpTo(lines: seq<string>, tagOf: string -> Tag, out: seq<string>, fromReplacement: seq<bool>,
                            cut: nat, e: nat) {
    && cut <= |out| == |fromReplacement| && e <= |lines| && out[cut..] == lines[e..]
    && Spans(Tags(lines, tagOf), e) == []
    && forall k :: 0 <= k < cut && !fromReplacement[k] ==> !tagOf(out[k]).Open?
  }

  /** From the end of block `k - 1` on, the parser finds the blocks from `k` on. */
  ghost predicate ParsedFrom(lines: seq<string>, tagOf: string -> Tag, spans: seq<Span>, k: nat) {
    && k <= |spans| && FrontEnd(spans, k) <= |lines|
    && Spans(Tags(lines, tagOf), FrontEnd(spans, k)) == spans[k..]
  }

  lemma ParsedNext(lines: seq<string>, tagOf: string -> Tag, spans: seq<Span>, k: nat)
    requires ParsedFrom(lines, tagOf, spans, k) && k < |spans|
    ensures ParsedFrom(lines, tagOf, spans, k + 1) && NoOpenLine(Kept(lines, spans, k), tagOf)
  {
    var i, kept := FrontEnd(spans, k), Kept(lines, spans, k);
    SpansHead(Tags(lines, tagOf), i);
    assert spans[k..][0] == spans[k] && spans[k..][1..] == spans[k + 1..];
    forall j | 0 <= j < |kept| ensures !tagOf(kept[j]).Open? {
      assert kept[j] == lines[i + j] && !Tags(lines, tagOf)[i + j].Open?;
    }
  }

  lemma {:induction false} ForwardClean(lines: seq<string>, tagOf: string -> Tag, spans: seq<Span>,
                                        reps: seq<seq<string>>, k: nat)
    returns (cut: nat, e: nat)
    requires |reps| == |spans| && ParsedFrom(lines, tagOf, spans, k)
    ensures CleanUpTo(lines, tagOf, Forward(lines, spans, reps, k), Replaced(lines, spans, reps, k), cut, e)
    decreases |spans| - k
  {
    if k == |spans| {
      cut, e := 0, FrontEnd(spans, k);
    } else {
      ParsedNext(lines, tagOf, spans, k);
      cut, e := ForwardClean(lines, tagOf, spans, reps, k + 1);
      cut := CleanNext(lines, tagOf, spans, reps, k, cut, e);
    }
  }

  lemma CleanNext(lines: seq<string>, tagOf: string -> Tag, spans: seq<Span>, reps: seq<seq<string>>, k: nat,
                  cut: nat, e: nat)
    returns (more: nat)
    requires |reps| == |spans| && k < |spans| && NoOpenLine(Kept(lines, spans, k), tagOf)
    requires CleanUpTo(lines, tagOf, Forward(lines, spans, reps, k + 1), Replaced(lines, spans, reps, k + 1), cut, e)
    ensures CleanUpTo(lines, tagOf, Forward(lines, spans, reps, k), Replaced(lines, spans, reps, k), more, e)
  {
    PrependClean(lines, tagOf, Kept(lines, spans, k), reps[k], Forward(lines, spans, reps, k + 1),
                 Replaced(lines, spans, reps, k + 1), cut, e);
    more := |Kept(lines, spans, k)| + |reps[k]| + cut;
  }

  lemma PrependClean(lines: seq<string>, tagOf: string -> Tag, kept: seq<string>, rep: seq<string>,
                     rest: seq<string>, more: seq<bool>, cut: nat, e: nat)
    requires CleanUpTo(lines, tagOf, rest, more, cut, e)
    requires NoOpenLine(kept, tagOf)
    ensures CleanUpTo(lines, tagOf, kept + rep + rest, Marks(kept, false) + Marks(rep, true) + more,
                      |kept| + |rep| + cut, e)
  {
    assert (kept + rep + rest)[|kept| + |rep| + cut..] == rest[cut..];
  }

  /** An open line of a replacement that is followed by a separator and then a close line. */
  ghost predicate ReopenedConflict(lines: seq<string>, tagOf: string -> Tag, fromReplacement: seq<bool>) {
    exists o, s, c ::
      0 <= o < s < c < |lines| && o < |fromReplacement| && fromReplacement[o]
      && tagOf(lines[o]).Open? && tagOf(lines[s]).Separator? && tagOf(lines[c]).Close?
  }

  /** The resolved lines still hold a block exactly if a replacement brought in an open line that a
      separator and a close line follow; lines kept from outside the blocks never start one. */
  lemma ResolvedCleanIff(lines: seq<string>, tagOf: string -> Tag, spans: seq<Span>, reps: seq<seq<string>>)
    requires spans == Spans(Tags(lines, tagOf), 0) && |reps| == |spans|
    ensures var out := Forward(lines, spans, reps, 0);
            ParseLines(out, tagOf) != [] <==> ReopenedConflict(out, tagOf, Replaced(lines, spans, reps, 0))
  {
    var out, fromReplacement := Forward(lines, spans, reps, 0), Replaced(lines, spans, reps, 0);
    assert spans[0..] == spans;
    var cut, e := ForwardClean(lines, tagOf, spans, reps, 0);
    BlocksIffConflict(out, tagOf);
    if o, s, c :| 0 <= o < s < c < |out| && tagOf(out[o]).Open? && tagOf(out[s]).Separator? && tagOf(out[c]).Close? {
      if !fromReplacement[o] {
        KeptOpenIsHarmless(lines, tagOf, out, fromReplacement, cut, e, o, s, c);
      }
    }
  }

  lemma KeptOpenIsHarmless(lines: seq<string>, tagOf: string -> Tag, out: seq<string>, fromReplacement: seq<bool>,
                           cut: nat, e: nat, o: nat, s: nat, c: nat)
    requires CleanUpTo(lines, tagOf, out, fromReplacement, cut, e)
    requires o < s < c < |out| && !fromReplacement[o]
    ensures !(tagOf(out[o]).Open? && tagOf(out[s]).Separator? && tagOf(out[c]).Close?)
  {
    if o >= cut {
      var d := e - cut;
      var tags := Tags(lines, tagOf);
      assert out[o] == out[cut..][o - cut] == lines[e..][o - cut] == lines[o + d];
      assert out[s] == out[cut..][s - cut] == lines[e..][s - cut] == lines[s + d];
      assert out[c] == out[cut..][c - cut] == lines[e..][c - cut] == lines[c + d];
      SpansIffConflict(tags, e);
      if tagOf(out[o]).Open? && tagOf(out[s]).Separator? && tagOf(out[c]).Close? {
        assert IsSpan(tags, Span(o + d, s + d, c + d));
      }
    }
  }

  // ---- On whole texts ----------------------------------------------------------------------------

  ghost predicate NewlineFree(lines: seq<string>) {
    forall k :: 0 <= k < |lines| ==> '\n' !in lines[k]
  }

  lemma {:induction false} ForwardNewlineFree(lines: seq<string>, spans: seq<Span>, reps: seq<seq<string>>, k: nat)
    requires |reps| == |spans| && k <= |spans| && NewlineFree(lines)
    requires forall j :: 0 <= j < |reps| ==> NewlineFree(reps[j])
    ensures NewlineFree(Forward(lines, spans, reps, k))
    decreases |spans| - k
  {
    if k < |spans| {
      ForwardNewlineFree(lines, spans, reps, k + 1);
      NewlineFreeConcat(Kept(lines, spans, k), reps[k], Forward(lines, spans, reps, k + 1));
    }
  }

  lemma NewlineFreeConcat(a: seq<string>, b: seq<string>, c: seq<string>)
    requires NewlineFree(a) && NewlineFree(b) && NewlineFree(c)
    ensures NewlineFree(a + b + c)
  {
  }

  /** Joining lines and parsing the text is parsing the lines. */
  lemma ParseJoined(lines: seq<string>)
    requires NewlineFree(lines)
    ensures Parse(Join(lines, '\n')) == [] <==> ParseLines(lines, TagOf) == []
  {
    if lines == [] {
      ShortcutIsSound("");
      NoOpenNoSpans(Tags(lines, TagOf), 0);
    } else {
      SplitJoin(lines, '\n');
    }
  }

  /** The chosen replacements bring in an open line that a separator and a close line follow. */
  ghost predicate Reopens(content: string, pick: Pick) {
    var lines := Split(content, '\n');
    ParsedBlocks(lines, TagOf);
    var spans, reps := Spans(Tags(lines, TagOf), 0), Replacements(pick, ParseLines(lines, TagOf));
    Parse(content) != []
    && ReopenedConflict(Forward(lines, spans, reps, 0), TagOf, Replaced(lines, spans, reps, 0))
  }

  /** For every text and every choice: resolving leaves a conflict exactly if a chosen replacement
      reopens one. Markers left unfinished outside the blocks never matter. */
  lemma ResolveLeavesConflictIff(content: string, pick: Pick)
    ensures Parse(Resolve(content, pick)) != [] <==> Reopens(content, pick)
  {
    var lines := Split(content, '\n');
    ParsedBlocks(lines, TagOf);
    var spans, reps := Spans(Tags(lines, TagOf), 0), Replacements(pick, ParseLines(lines, TagOf));
    if Parse(content) != [] {
      SplitParts(content, '\n');
      forall k | 0 <= k < |reps| ensures NewlineFree(reps[k]) {
        SplitParts(Chosen(pick, ParseLines(lines, TagOf)[k]), '\n');
      }
      ForwardNewlineFree(lines, spans, reps, 0);
      ParseJoined(Forward(lines, spans, reps, 0));
      ResolvedCleanIff(lines, TagOf, spans, reps);
    }
  }

  lemma {:induction false} ReplacedHasNoOpen(lines: seq<string>, tagOf: string -> Tag, spans: seq<Span>,
                                             reps: seq<seq<string>>, k: nat)
    requires |reps| == |spans| && k <= |spans|
    requires forall j :: 0 <= j < |reps| ==> NoOpenLine(reps[j], tagOf)
    ensures ReplacedAreNotOpen(Forward(lines, spans, reps, k), tagOf, Replaced(lines, spans, reps, k))
    decreases |spans| - k
  {
    if k < |spans| {
      ReplacedHasNoOpen(lines, tagOf, spans, reps, k + 1);
      ReplacedConcat(Kept(lines, spans, k), reps[k], Forward(lines, spans, reps, k + 1),
                     tagOf, Replaced(lines, spans, reps, k + 1));
    }
  }

  ghost predicate ReplacedAreNotOpen(out: seq<string>, tagOf: string -> Tag, fromReplacement: seq<bool>) {
    |out| == |fromReplacement| && forall k :: 0 <= k < |out| && fromReplacement[k] ==> !tagOf(out[k]).Open?
  }

  lemma ReplacedConcat(kept: seq<string>, rep: seq<string>, rest: seq<string>, tagOf: string -> Tag, more: seq<bool>)
    requires NoOpenLine(rep, tagOf) && ReplacedAreNotOpen(rest, tagOf, more)
    ensures ReplacedAreNotOpen(kept + rep + rest, tagOf, Marks(kept, false) + Marks(rep, true) + more)
  {
  }

  /** So replacements without open lines always resolve a text completely. */
  lemma ResolveLeavesNoConflict(content: string, pick: Pick)
    requires forall k :: 0 <= k < |Parse(content)| ==>
               NoOpenLine(ReplacementLines(Chosen(pick, Parse(content)[k])), TagOf)
    ensures Parse(Resolve(content, pick)) == []
  {
    var lines := Split(content, '\n');
    ParsedBlocks(lines, TagOf);
    var spans, reps := Spans(Tags(lines, TagOf), 0), Replacements(pick, ParseLines(lines, TagOf));
    ResolveLeavesConflictIff(content, pick);
    ReplacedHasNoOpen(lines, TagOf, spans, reps, 0);
  }

  lemma ReopenLines(open: string, mid: string, close: string)
    requires TagOf(open).Open? && TagOf(mid).Separator? && TagOf(close).Close?
    requires NewlineFree([open, mid, close])
    ensures Parse(Join([open, mid, close], '\n')) != []
  {
    var out := [open, mid, close];
    assert TagOf(out[0]).Open? && TagOf(out[1]).Separator? && TagOf(out[2]).Close?;
    BlocksIffConflict(out, TagOf);
    ParseJoined(out);
  }

  lemma NestedSpans(open: string, mid: string, close: string)
    requires TagOf(open).Open? && TagOf(mid).Separator? && TagOf(close).Close?
    ensures Spans(Tags([open, open, mid, close, mid, close], TagOf), 0) == [Span(0, 2, 3)]
  {
    var tags := Tags([open, open, mid, close, mid, close], TagOf);
    SpanScans(tags, Span(0, 2, 3));
    NoOpenNoSpans(tags, 4);
  }

  /** The condition is needed: our side may itself hold an open line, and what followed the block
      then closes it again. */
  lemma OursCanReopen() returns (content: string)
    ensures Parse(content) != [] && Parse(Resolve(content, Ours)) != []
  {
    var open, mid, close := OPEN_MARK + " ", SEPARATOR_MARK, CLOSE_MARK + " ";
    var lines := [open, open, mid, close, mid, close];
    content := Join(lines, '\n');
    MarkerTags("");
    assert OPEN_MARK + " " + "" == open && CLOSE_MARK + " " + "" == close;
    assert NewlineFree([open, mid, close]) && NewlineFree(lines);
    SplitJoin(lines, '\n');
    NestedSpans(open, mid, close);
    OursOutcome(lines, open, mid, close);
    ReopenLines(open, mid, close);
  }

  lemma OursOutcome(lines: seq<string>, open: string, mid: string, close: string)
    requires lines == [open, open, mid, close, mid, close] && '\n' !in open && open != ""
    requires Spans(Tags(lines, TagOf), 0) == [Span(0, 2, 3)]
    ensures ResolveLines(lines, TagOf, Ours) == [open, mid, close]
  {
    var spans, blocks := [Span(0, 2, 3)], ParseLines(lines, TagOf);
    ParsedBlocks(lines, TagOf);
    assert blocks[0] == BlockOf(lines, spans[0]) && lines[1..2] == [open];
    SplitWhole(open, '\n');
    var reps := Replacements(Ours, blocks);
    assert reps[0] == [open];
    assert Kept(lines, spans, 0) == [] && Kept(lines, spans, 1) == [mid, close];
    assert Forward(lines, spans, reps, 1) == [mid, close];
  }
}
