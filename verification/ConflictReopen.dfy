/** When resolving to one side leaves a conflict, told from the unresolved lines alone. */
module ConflictReopen {
  import opened Text
  import opened MarkerScan
  import opened ConflictMarkers
  import opened ConflictResolve
  import opened Positions

  /** The first line of the side a fixed pick keeps, and the line after its last one. */
  function SideFrom(theirs: bool, b: Span): nat {
    if theirs then b.separator + 1 else b.open + 1
  }

  function SideTo(theirs: bool, b: Span): nat {
    if theirs then b.close else b.separator
  }

  function SidePick(theirs: bool): Pick {
    if theirs then Theirs else Ours
  }

  ghost predicate Outside(spans: seq<Span>, i: int) {
    forall k :: 0 <= k < |spans| ==> !(spans[k].open <= i <= spans[k].close)
  }

  ghost predicate InSide(theirs: bool, spans: seq<Span>, i: int) {
    exists k :: 0 <= k < |spans| && SideFrom(theirs, spans[k]) <= i < SideTo(theirs, spans[k])
  }

  /** The last line of a side, if it is empty. */
  ghost predicate Dropped(lines: seq<string>, theirs: bool, spans: seq<Span>, i: int) {
    exists k :: 0 <= k < |spans| && EndsEmpty(lines, theirs, spans[k], i)
  }

  ghost predicate EndsEmpty(lines: seq<string>, theirs: bool, b: Span, i: int) {
    SideFrom(theirs, b) <= i == SideTo(theirs, b) - 1 && i < |lines| && lines[i] == ""
  }

  /** A line remains if it is outside the blocks, or in the chosen side and not an empty last line of it. */
  ghost predicate Remains(lines: seq<string>, theirs: bool, spans: seq<Span>, i: int) {
    Outside(spans, i) || (InSide(theirs, spans, i) && !Dropped(lines, theirs, spans, i))
  }

  lemma DroppedInBlock(lines: seq<string>, theirs: bool, spans: seq<Span>, n: nat, k: nat, i: nat)
    requires Ordered(spans, 0, n) && k < |spans| && spans[k].open <= i <= spans[k].close
    ensures Dropped(lines, theirs, spans, i) <==> EndsEmpty(lines, theirs, spans[k], i)
  {
    if j :| 0 <= j < |spans| && EndsEmpty(lines, theirs, spans[j], i) {
      assert j < k ==> spans[j].close < spans[k].open;
      assert k < j ==> spans[k].close < spans[j].open;
    }
  }

  lemma BetweenBlocks(theirs: bool, spans: seq<Span>, n: nat, k: nat, i: nat)
    requires Ordered(spans, 0, n) && k <= |spans|
    requires FrontEnd(spans, k) <= i && (k < |spans| ==> i < spans[k].open)
    ensures Outside(spans, i) && !InSide(theirs, spans, i)
  {
    forall j | 0 <= j < |spans| ensures !(spans[j].open <= i <= spans[j].close) {
      if j < k - 1 {
        assert spans[j].close < spans[k - 1].open;
      } else if k < j {
        assert spans[k].close < spans[j].open;
      }
    }
  }

  lemma InBlock(theirs: bool, spans: seq<Span>, n: nat, k: nat, i: nat)
    requires Ordered(spans, 0, n) && k < |spans| && spans[k].open <= i <= spans[k].close
    ensures !Outside(spans, i)
    ensures InSide(theirs, spans, i) <==> SideFrom(theirs, spans[k]) <= i < SideTo(theirs, spans[k])
  {
    if j :| 0 <= j < |spans| && SideFrom(theirs, spans[j]) <= i < SideTo(theirs, spans[j]) {
      assert j < k ==> spans[j].close < spans[k].open;
      assert k < j ==> spans[k].close < spans[j].open;
    }
  }

  // ---- Where the resolved lines come from --------------------------------------------------------

  type LineSet = int -> bool

  /** Line `x` shows up as `line`, marked if it comes from a side. */
  ghost predicate TracedLine(lines: seq<string>, side: LineSet, remains: LineSet, line: string, mark: bool, x: nat) {
    x < |lines| && line == lines[x] && remains(x) && (mark <==> side(x))
  }

  ghost predicate AllTraced(lines: seq<string>, side: LineSet, remains: LineSet, lo: nat, hi: nat,
                            out: seq<string>, marks: seq<bool>, origin: seq<nat>) {
    && |out| == |marks| == |origin|
    && forall i :: 0 <= i < |origin| ==>
         lo <= origin[i] < hi && TracedLine(lines, side, remains, out[i], marks[i], origin[i])
  }

  ghost predicate Rising(origin: seq<nat>) {
    forall i, j :: 0 <= i < j < |origin| ==> origin[i] < origin[j]
  }

  ghost predicate HoldsAll(lines: seq<string>, remains: LineSet, lo: nat, hi: nat, origin: seq<nat>) {
    hi <= |lines| && forall x: nat :: lo <= x < hi && remains(x) ==> x in origin
  }

  /** `out` is what remains of the lines from `lo` to before `hi`, in order: `origin` says where each line
      comes from. */
  ghost predicate Traces(lines: seq<string>, side: LineSet, remains: LineSet, lo: nat, hi: nat,
                         out: seq<string>, marks: seq<bool>, origin: seq<nat>) {
    && AllTraced(lines, side, remains, lo, hi, out, marks, origin)
    && Rising(origin) && HoldsAll(lines, remains, lo, hi, origin)
  }

  lemma TracesConcat(lines: seq<string>, side: LineSet, remains: LineSet, lo: nat, mid: nat, hi: nat,
                     a: seq<string>, am: seq<bool>, ao: seq<nat>, b: seq<string>, bm: seq<bool>, bo: seq<nat>)
    requires lo <= mid <= hi
    requires Traces(lines, side, remains, lo, mid, a, am, ao) && Traces(lines, side, remains, mid, hi, b, bm, bo)
    ensures Traces(lines, side, remains, lo, hi, a + b, am + bm, ao + bo)
  {
    AllTracedConcat(lines, side, remains, lo, mid, hi, a, am, ao, b, bm, bo);
    RisingConcat(mid, ao, bo);
    HoldsAllConcat(lines, remains, lo, mid, hi, ao, bo);
  }

  lemma AllTracedConcat(lines: seq<string>, side: LineSet, remains: LineSet, lo: nat, mid: nat, hi: nat,
                        a: seq<string>, am: seq<bool>, ao: seq<nat>, b: seq<string>, bm: seq<bool>, bo: seq<nat>)
    requires lo <= mid <= hi
    requires AllTraced(lines, side, remains, lo, mid, a, am, ao) && AllTraced(lines, side, remains, mid, hi, b, bm, bo)
    ensures AllTraced(lines, side, remains, lo, hi, a + b, am + bm, ao + bo)
  {
  }

  lemma RisingConcat(mid: nat, a: seq<nat>, b: seq<nat>)
    requires Rising(a) && Rising(b)
    requires forall i :: 0 <= i < |a| ==> a[i] < mid
    requires forall i :: 0 <= i < |b| ==> mid <= b[i]
    ensures Rising(a + b)
  {
  }

  lemma HoldsAllConcat(lines: seq<string>, remains: LineSet, lo: nat, mid: nat, hi: nat, a: seq<nat>, b: seq<nat>)
    requires HoldsAll(lines, remains, lo, mid, a) && HoldsAll(lines, remains, mid, hi, b)
    ensures HoldsAll(lines, remains, lo, hi, a + b)
  {
  }

  function Range(from: nat, to: nat): (xs: seq<nat>)
    requires from <= to
    ensures |xs| == to - from
    ensures forall i :: 0 <= i < |xs| ==> xs[i] == from + i
  {
    seq(to - from, i requires 0 <= i => from + i)
  }

  lemma InRange(from: nat, to: nat, x: nat)
    requires from <= x < to
    ensures x in Range(from, to)
  {
    assert Range(from, to)[x - from] == x;
  }

  /** Lines in a row that all remain, where nothing else remains around them. */
  lemma SliceTraced(lines: seq<string>, side: LineSet, remains: LineSet, lo: nat, hi: nat,
                    from: nat, to: nat, mark: bool)
    requires lo <= from <= to <= hi <= |lines|
    requires forall x :: from <= x < to ==> remains(x) && (mark <==> side(x))
    requires forall x :: lo <= x < hi && remains(x) ==> from <= x < to
    ensures Traces(lines, side, remains, lo, hi, lines[from..to], Marks(lines[from..to], mark), Range(from, to))
  {
    forall x: nat | from <= x < to ensures x in Range(from, to) {
      InRange(from, to, x);
    }
  }

  ghost function Side(theirs: bool, spans: seq<Span>): LineSet {
    i => InSide(theirs, spans, i)
  }

  ghost function Remaining(lines: seq<string>, theirs: bool, spans: seq<Span>): LineSet {
    i => Remains(lines, theirs, spans, i)
  }

  lemma KeptTraced(lines: seq<string>, theirs: bool, spans: seq<Span>, k: nat)
    requires Ordered(spans, 0, |lines|) && k <= |spans|
    ensures var lo, hi := FrontEnd(spans, k), if k == |spans| then |lines| else spans[k].open;
            lo <= hi && Traces(lines, Side(theirs, spans), Remaining(lines, theirs, spans), lo, hi,
                               Kept(lines, spans, k), Marks(Kept(lines, spans, k), false), Range(lo, hi))
  {
    FrontEndWithin(spans, |lines|, k);
    var lo: nat, hi: nat := FrontEnd(spans, k), if k == |spans| then |lines| else spans[k].open;
    var side, remains := Side(theirs, spans), Remaining(lines, theirs, spans);
    forall x | lo <= x < hi ensures remains(x) && !side(x) {
      BetweenBlocks(theirs, spans, |lines|, k, x);
    }
    SliceTraced(lines, side, remains, lo, hi, lo, hi, false);
  }

  /** A side without one trailing empty line. */
  function SideEnd(lines: seq<string>, theirs: bool, b: Span): (hi: nat)
    requires b.open < b.separator < b.close < |lines|
    ensures SideFrom(theirs, b) <= hi <= SideTo(theirs, b)
  {
    var lo, hi := SideFrom(theirs, b), SideTo(theirs, b);
    if lo < hi && lines[hi - 1] == "" then hi - 1 else hi
  }

  lemma SideTraced(lines: seq<string>, theirs: bool, spans: seq<Span>, k: nat)
    requires Ordered(spans, 0, |lines|) && k < |spans|
    ensures var b := spans[k];
            var lo, hi := SideFrom(theirs, b), SideEnd(lines, theirs, b);
            Traces(lines, Side(theirs, spans), Remaining(lines, theirs, spans), b.open, b.close + 1, lines[lo..hi],
                   Marks(lines[lo..hi], true), Range(lo, hi))
  {
    var b := spans[k];
    var lo, hi := SideFrom(theirs, b), SideEnd(lines, theirs, b);
    var side, remains := Side(theirs, spans), Remaining(lines, theirs, spans);
    forall x | b.open <= x <= b.close
      ensures side(x) <==> lo <= x < SideTo(theirs, b)
      ensures remains(x) <==> lo <= x < hi
    {
      InBlock(theirs, spans, |lines|, k, x);
      DroppedInBlock(lines, theirs, spans, |lines|, k, x);
    }
    SliceTraced(lines, side, remains, b.open, b.close + 1, lo, hi, true);
  }

  /** The replacements are the chosen sides. */
  ghost predicate FromSides(lines: seq<string>, theirs: bool, spans: seq<Span>, reps: seq<seq<string>>) {
    && Within(spans, |lines|) && |reps| == |spans|
    && forall k :: 0 <= k < |spans| ==> FromSide(lines, theirs, spans[k], reps[k])
  }

  ghost predicate FromSide(lines: seq<string>, theirs: bool, b: Span, rep: seq<string>)
    requires b.open < b.separator < b.close < |lines|
  {
    rep == lines[SideFrom(theirs, b)..SideEnd(lines, theirs, b)]
  }

  /** The lines from block `k` on come from there. */
  ghost predicate TracedFrom(lines: seq<string>, theirs: bool, spans: seq<Span>, reps: seq<seq<string>>, k: nat,
                             origin: seq<nat>) {
    && |reps| == |spans| && k <= |spans| && FrontEnd(spans, k) <= |lines|
    && Traces(lines, Side(theirs, spans), Remaining(lines, theirs, spans), FrontEnd(spans, k), |lines|,
              Forward(lines, spans, reps, k), Replaced(lines, spans, reps, k), origin)
  }

  ghost predicate Traceable(lines: seq<string>, theirs: bool, spans: seq<Span>, reps: seq<seq<string>>, k: nat) {
    exists origin :: TracedFrom(lines, theirs, spans, reps, k, origin)
  }

  lemma TracedNext(lines: seq<string>, theirs: bool, spans: seq<Span>, reps: seq<seq<string>>, k: nat)
    requires Ordered(spans, 0, |lines|) && FromSides(lines, theirs, spans, reps) && k < |spans|
    requires Traceable(lines, theirs, spans, reps, k + 1)
    ensures Traceable(lines, theirs, spans, reps, k)
  {
    var rest :| TracedFrom(lines, theirs, spans, reps, k + 1, rest);
    KeptTraced(lines, theirs, spans, k);
    SideTraced(lines, theirs, spans, k);
    FrontEndWithin(spans, |lines|, k);
    var side, remains := Side(theirs, spans), Remaining(lines, theirs, spans);
    var b, kept, lo := spans[k], Kept(lines, spans, k), FrontEnd(spans, k);
    var chosen := Range(SideFrom(theirs, b), SideEnd(lines, theirs, b));
    assert FromSide(lines, theirs, b, reps[k]);
    TracesConcat(lines, side, remains, lo, b.open, b.close + 1, kept, Marks(kept, false), Range(lo, b.open),
                 reps[k], Marks(reps[k], true), chosen);
    TracesConcat(lines, side, remains, lo, b.close + 1, |lines|, kept + reps[k],
                 Marks(kept, false) + Marks(reps[k], true), Range(lo, b.open) + chosen,
                 Forward(lines, spans, reps, k + 1), Replaced(lines, spans, reps, k + 1), rest);
    assert TracedFrom(lines, theirs, spans, reps, k, Range(lo, b.open) + chosen + rest);
  }

  lemma TracedLast(lines: seq<string>, theirs: bool, spans: seq<Span>, reps: seq<seq<string>>)
    requires Ordered(spans, 0, |lines|) && |reps| == |spans|
    ensures Traceable(lines, theirs, spans, reps, |spans|)
  {
    KeptTraced(lines, theirs, spans, |spans|);
    assert TracedFrom(lines, theirs, spans, reps, |spans|, Range(FrontEnd(spans, |spans|), |lines|));
  }

  lemma {:induction false} ForwardTraced(lines: seq<string>, theirs: bool, spans: seq<Span>, reps: seq<seq<string>>,
                                         k: nat)
    requires Ordered(spans, 0, |lines|) && FromSides(lines, theirs, spans, reps) && k <= |spans|
    ensures Traceable(lines, theirs, spans, reps, k)
    decreases |spans| - k
  {
    if k == |spans| {
      TracedLast(lines, theirs, spans, reps);
    } else {
      ForwardTraced(lines, theirs, spans, reps, k + 1);
      TracedNext(lines, theirs, spans, reps, k);
    }
  }

  // ---- The condition on the original lines -------------------------------------------------------

  /** An open line of a side is followed, among the lines that remain, by a separator and a close line. */
  ghost predicate Opens(lines: seq<string>, tagOf: string -> Tag, side: LineSet, remains: LineSet) {
    exists o: nat, s: nat, c: nat :: OpensAt(lines, tagOf, side, remains, o, s, c)
  }

  ghost predicate OpensAt(lines: seq<string>, tagOf: string -> Tag, side: LineSet, remains: LineSet,
                          o: nat, s: nat, c: nat) {
    && o < s < c < |lines|
    && side(o) && tagOf(lines[o]).Open?
    && remains(s) && tagOf(lines[s]).Separator?
    && remains(c) && tagOf(lines[c]).Close?
  }

  /** A line that remains is found in the result. */
  lemma OriginOf(lines: seq<string>, side: LineSet, remains: LineSet, out: seq<string>, marks: seq<bool>,
                 origin: seq<nat>, x: nat)
    returns (i: nat)
    requires Traces(lines, side, remains, 0, |lines|, out, marks, origin)
    requires x < |lines| && remains(x)
    ensures i < |out| == |origin| == |marks| && origin[i] == x && out[i] == lines[x] && (marks[i] <==> side(x))
  {
    i :| i < |origin| && origin[i] == x;
    assert TracedLine(lines, side, remains, out[i], marks[i], origin[i]);
  }

  lemma TracedOpens(lines: seq<string>, tagOf: string -> Tag, side: LineSet, remains: LineSet,
                    out: seq<string>, marks: seq<bool>, origin: seq<nat>)
    requires Traces(lines, side, remains, 0, |lines|, out, marks, origin)
    requires ReopenedConflict(out, tagOf, marks)
    ensures Opens(lines, tagOf, side, remains)
  {
    var o, s, c :| 0 <= o < s < c < |out| && o < |marks| && marks[o]
                   && tagOf(out[o]).Open? && tagOf(out[s]).Separator? && tagOf(out[c]).Close?;
    assert TracedLine(lines, side, remains, out[o], marks[o], origin[o]);
    assert TracedLine(lines, side, remains, out[s], marks[s], origin[s]);
    assert TracedLine(lines, side, remains, out[c], marks[c], origin[c]);
    assert OpensAt(lines, tagOf, side, remains, origin[o], origin[s], origin[c]);
  }

  lemma TracedReopens(lines: seq<string>, tagOf: string -> Tag, side: LineSet, remains: LineSet,
                      out: seq<string>, marks: seq<bool>, origin: seq<nat>)
    requires Traces(lines, side, remains, 0, |lines|, out, marks, origin) && tagOf("").Plain?
    requires Opens(lines, tagOf, side, remains)
    requires forall x :: 0 <= x < |lines| && side(x) && lines[x] != "" ==> remains(x)
    ensures ReopenedConflict(out, tagOf, marks)
  {
    var o: nat, s: nat, c: nat :| OpensAt(lines, tagOf, side, remains, o, s, c);
    var i := OriginOf(lines, side, remains, out, marks, origin, o);
    var j := OriginOf(lines, side, remains, out, marks, origin, s);
    var k := OriginOf(lines, side, remains, out, marks, origin, c);
    assert i < j < k;
  }

  // ---- The two picks put in sides ----------------------------------------------------------------

  function DropEmptyEnd(lines: seq<string>): seq<string> {
    if lines != [] && lines[|lines| - 1] == "" then lines[..|lines| - 1] else lines
  }

  lemma ReplacementDrops(text: string)
    ensures ReplacementLines(text) == DropEmptyEnd(Split(text, '\n'))
  {
  }

  /** The empty side is split into one empty line, which is then dropped. */
  lemma SideDrops(side: seq<string>)
    requires NewlineFree(side)
    ensures DropEmptyEnd(Split(Join(side, '\n'), '\n')) == DropEmptyEnd(side)
  {
    if side == [] {
      assert Split("", '\n') == [""];
    } else {
      SplitJoin(side, '\n');
    }
  }

  lemma SliceDrops(lines: seq<string>, lo: nat, hi: nat)
    requires lo <= hi <= |lines|
    ensures DropEmptyEnd(lines[lo..hi]) == lines[lo..if lo < hi && lines[hi - 1] == "" then hi - 1 else hi]
  {
    if lo < hi {
      assert lines[lo..hi][..hi - lo - 1] == lines[lo..hi - 1];
    }
  }

  lemma SideReplacement(side: seq<string>)
    requires NewlineFree(side)
    ensures ReplacementLines(Join(side, '\n')) == DropEmptyEnd(side)
  {
    ReplacementDrops(Join(side, '\n'));
    SideDrops(side);
  }

  lemma ChosenSide(lines: seq<string>, theirs: bool, b: Span, side: seq<string>)
    requires b.open < b.separator < b.close < |lines|
    requires side == lines[SideFrom(theirs, b)..SideTo(theirs, b)]
    ensures Chosen(SidePick(theirs), BlockOf(lines, b)) == Join(side, '\n')
  {
  }

  lemma DroppedSide(lines: seq<string>, theirs: bool, b: Span, side: seq<string>)
    requires NewlineFree(lines) && b.open < b.separator < b.close < |lines|
    requires side == lines[SideFrom(theirs, b)..SideTo(theirs, b)]
    ensures NewlineFree(side) && FromSide(lines, theirs, b, DropEmptyEnd(side))
  {
    SliceDrops(lines, SideFrom(theirs, b), SideTo(theirs, b));
  }

  /** A fixed pick puts in a side, without one trailing empty line. */
  lemma PicksSide(lines: seq<string>, theirs: bool, b: Span, side: seq<string>)
    requires NewlineFree(lines) && b.open < b.separator < b.close < |lines|
    requires side == lines[SideFrom(theirs, b)..SideTo(theirs, b)]
    ensures FromSide(lines, theirs, b, ReplacementLines(Chosen(SidePick(theirs), BlockOf(lines, b))))
  {
    DroppedSide(lines, theirs, b, side);
    ChosenSide(lines, theirs, b, side);
    SideReplacement(side);
  }

  lemma PicksSides(lines: seq<string>, tagOf: string -> Tag, theirs: bool)
    requires NewlineFree(lines)
    ensures FromSides(lines, theirs, Spans(Tags(lines, tagOf), 0),
                      Replacements(SidePick(theirs), ParseLines(lines, tagOf)))
  {
    var spans, blocks := Spans(Tags(lines, tagOf), 0), ParseLines(lines, tagOf);
    SpansWithin(lines, tagOf);
    forall k | 0 <= k < |spans|
      ensures FromSide(lines, theirs, spans[k], Replacements(SidePick(theirs), blocks)[k])
    {
      PicksSide(lines, theirs, spans[k], lines[SideFrom(theirs, spans[k])..SideTo(theirs, spans[k])]);
    }
  }

  /** Only empty lines of a side are dropped. */
  lemma SideRemains(lines: seq<string>, theirs: bool, spans: seq<Span>)
    ensures forall x :: 0 <= x < |lines| && Side(theirs, spans)(x) && lines[x] != "" ==>
              Remaining(lines, theirs, spans)(x)
  {
  }

  lemma ResolvedTraced(lines: seq<string>, tagOf: string -> Tag, theirs: bool) returns (origin: seq<nat>)
    requires NewlineFree(lines)
    ensures var spans := Spans(Tags(lines, tagOf), 0);
            var reps := Replacements(SidePick(theirs), ParseLines(lines, tagOf));
            && |reps| == |spans|
            && Traces(lines, Side(theirs, spans), Remaining(lines, theirs, spans), 0, |lines|,
                      Forward(lines, spans, reps, 0), Replaced(lines, spans, reps, 0), origin)
  {
    ParsedBlocks(lines, tagOf);
    var spans := Spans(Tags(lines, tagOf), 0);
    var reps := Replacements(SidePick(theirs), ParseLines(lines, tagOf));
    PicksSides(lines, tagOf, theirs);
    ForwardTraced(lines, theirs, spans, reps, 0);
    origin :| TracedFrom(lines, theirs, spans, reps, 0, origin);
  }

  lemma ReopenedIff(lines: seq<string>, tagOf: string -> Tag, theirs: bool)
    requires NewlineFree(lines) && tagOf("").Plain?
    ensures var spans := Spans(Tags(lines, tagOf), 0);
            var reps := Replacements(SidePick(theirs), ParseLines(lines, tagOf));
            && |reps| == |spans|
            && (ReopenedConflict(Forward(lines, spans, reps, 0), tagOf, Replaced(lines, spans, reps, 0)) <==>
                Opens(lines, tagOf, Side(theirs, spans), Remaining(lines, theirs, spans)))
  {
    var spans := Spans(Tags(lines, tagOf), 0);
    var reps := Replacements(SidePick(theirs), ParseLines(lines, tagOf));
    var side, remains := Side(theirs, spans), Remaining(lines, theirs, spans);
    var origin := ResolvedTraced(lines, tagOf, theirs);
    var out, marks := Forward(lines, spans, reps, 0), Replaced(lines, spans, reps, 0);
    if ReopenedConflict(out, tagOf, marks) {
      TracedOpens(lines, tagOf, side, remains, out, marks, origin);
    }
    if Opens(lines, tagOf, side, remains) {
      SideRemains(lines, theirs, spans);
      TracedReopens(lines, tagOf, side, remains, out, marks, origin);
    }
  }

  /** Resolving to one side leaves a conflict exactly if that side of some block holds an open line that,
      among the lines that remain, a separator and a close line follow. */
  lemma SideReopensIff(content: string, theirs: bool)
    ensures var lines := Split(content, '\n');
            var spans := Spans(Tags(lines, TagOf), 0);
            Parse(Resolve(content, SidePick(theirs))) != [] <==>
            Opens(lines, TagOf, Side(theirs, spans), Remaining(lines, theirs, spans))
  {
    SplitParts(content, '\n');
    EmptyIsPlain();
    ReopenedIff(Split(content, '\n'), TagOf, theirs);
    ResolveLeavesConflictIff(content, SidePick(theirs));
    if Parse(content) == [] {
      NothingOpens(Split(content, '\n'), TagOf, theirs);
    }
  }

  lemma EmptyIsPlain()
    ensures TagOf("").Plain?
  {
  }

  lemma NothingOpens(lines: seq<string>, tagOf: string -> Tag, theirs: bool)
    requires ParseLines(lines, tagOf) == []
    ensures var spans := Spans(Tags(lines, tagOf), 0);
            !Opens(lines, tagOf, Side(theirs, spans), Remaining(lines, theirs, spans))
  {
    SpansWithin(lines, tagOf);
  }

  // ---- Pick by pick ------------------------------------------------------------------------------

  ghost predicate InOurs(spans: seq<Span>, i: int) {
    exists k :: 0 <= k < |spans| && spans[k].open < i < spans[k].separator
  }

  ghost predicate InTheirs(spans: seq<Span>, i: int) {
    exists k :: 0 <= k < |spans| && spans[k].separator < i < spans[k].close
  }

  lemma SidesAreSides(spans: seq<Span>, i: int)
    ensures InSide(false, spans, i) <==> InOurs(spans, i)
    ensures InSide(true, spans, i) <==> InTheirs(spans, i)
  {
    if k :| 0 <= k < |spans| && spans[k].open < i < spans[k].separator {
      assert SideFrom(false, spans[k]) <= i < SideTo(false, spans[k]);
    }
    if k :| 0 <= k < |spans| && spans[k].separator < i < spans[k].close {
      assert SideFrom(true, spans[k]) <= i < SideTo(true, spans[k]);
    }
  }

  /** Our sides hold no separators and their sides no close lines. */
  lemma SidesAreTight(lines: seq<string>, tagOf: string -> Tag, i: nat)
    requires i < |lines|
    ensures InOurs(Spans(Tags(lines, tagOf), 0), i) ==> !tagOf(lines[i]).Separator?
    ensures InTheirs(Spans(Tags(lines, tagOf), 0), i) ==> !tagOf(lines[i]).Close?
  {
    var tags := Tags(lines, tagOf);
    var spans := Spans(tags, 0);
    if k :| 0 <= k < |spans| && spans[k].open < i < spans[k].separator {
      SpansTight(tags, 0, k, i);
    }
    if k :| 0 <= k < |spans| && spans[k].separator < i < spans[k].close {
      SpansTight(tags, 0, k, i);
    }
  }

  /** `o` opens in our side, the separator `s` is outside the blocks, the close line `c` outside or in our side. */
  ghost predicate OursReopensAt(lines: seq<string>, tagOf: string -> Tag, spans: seq<Span>, o: nat, s: nat, c: nat) {
    && o < s < c < |lines|
    && InOurs(spans, o) && tagOf(lines[o]).Open?
    && Outside(spans, s) && tagOf(lines[s]).Separator?
    && (Outside(spans, c) || InOurs(spans, c)) && tagOf(lines[c]).Close?
  }

  /** `o` opens in their side, the separator `s` is outside the blocks or in their side, the close line `c` outside. */
  ghost predicate TheirsReopensAt(lines: seq<string>, tagOf: string -> Tag, spans: seq<Span>, o: nat, s: nat, c: nat) {
    && o < s < c < |lines|
    && InTheirs(spans, o) && tagOf(lines[o]).Open?
    && (Outside(spans, s) || InTheirs(spans, s)) && tagOf(lines[s]).Separator?
    && Outside(spans, c) && tagOf(lines[c]).Close?
  }

  /** A marker line is not dropped. */
  lemma MarkersRemain(lines: seq<string>, theirs: bool, i: nat)
    requires i < |lines| && !TagOf(lines[i]).Plain?
    ensures var spans := Spans(Tags(lines, TagOf), 0);
            Remains(lines, theirs, spans, i) <==> Outside(spans, i) || InSide(theirs, spans, i)
  {
    assert TagOf("").Plain?;
  }

  lemma OursAt(lines: seq<string>, o: nat, s: nat, c: nat)
    ensures var spans := Spans(Tags(lines, TagOf), 0);
            OpensAt(lines, TagOf, Side(false, spans), Remaining(lines, false, spans), o, s, c)
            <==> OursReopensAt(lines, TagOf, spans, o, s, c)
  {
    var spans := Spans(Tags(lines, TagOf), 0);
    if o < s < c < |lines| && TagOf(lines[s]).Separator? && TagOf(lines[c]).Close? {
      SidesAreSides(spans, o);
      SidesAreSides(spans, s);
      SidesAreSides(spans, c);
      MarkersRemain(lines, false, s);
      MarkersRemain(lines, false, c);
      SidesAreTight(lines, TagOf, s);
    }
  }

  lemma TheirsAt(lines: seq<string>, o: nat, s: nat, c: nat)
    ensures var spans := Spans(Tags(lines, TagOf), 0);
            OpensAt(lines, TagOf, Side(true, spans), Remaining(lines, true, spans), o, s, c)
            <==> TheirsReopensAt(lines, TagOf, spans, o, s, c)
  {
    var spans := Spans(Tags(lines, TagOf), 0);
    if o < s < c < |lines| && TagOf(lines[s]).Separator? && TagOf(lines[c]).Close? {
      SidesAreSides(spans, o);
      SidesAreSides(spans, s);
      SidesAreSides(spans, c);
      MarkersRemain(lines, true, s);
      MarkersRemain(lines, true, c);
      SidesAreTight(lines, TagOf, c);
    }
  }

  /** Choosing ours leaves a conflict exactly if an open line of our side is followed by a separator outside
      the blocks and a close line outside them or in our side. */
  lemma OursReopensIff(content: string)
    ensures var lines := Split(content, '\n');
            Parse(Resolve(content, Ours)) != [] <==>
            exists o: nat, s: nat, c: nat :: OursReopensAt(lines, TagOf, Spans(Tags(lines, TagOf), 0), o, s, c)
  {
    SideReopensIff(content, false);
    forall o: nat, s: nat, c: nat { OursAt(Split(content, '\n'), o, s, c); }
  }

  /** Choosing theirs leaves one exactly if an open line of their side is followed by a separator outside the
      blocks or in their side, and a close line outside. */
  lemma TheirsReopensIff(content: string)
    ensures var lines := Split(content, '\n');
            Parse(Resolve(content, Theirs)) != [] <==>
            exists o: nat, s: nat, c: nat :: TheirsReopensAt(lines, TagOf, Spans(Tags(lines, TagOf), 0), o, s, c)
  {
    SideReopensIff(content, true);
    forall o: nat, s: nat, c: nat { TheirsAt(Split(content, '\n'), o, s, c); }
  }

  // ---- What a fixed pick returns -----------------------------------------------------------------

  lemma TracedExactly(lines: seq<string>, side: LineSet, remains: LineSet, out: seq<string>, marks: seq<bool>,
                      origin: seq<nat>)
    requires Traces(lines, side, remains, 0, |lines|, out, marks, origin)
    ensures Exactly(lines, out, (x: nat) => remains(x))
  {
    var keep: nat -> bool := (x: nat) => remains(x);
    forall i | 0 <= i < |origin| ensures origin[i] < |lines| && out[i] == lines[origin[i]] && remains(origin[i]) {
      assert TracedLine(lines, side, remains, out[i], marks[i], origin[i]);
    }
    assert PicksAll(lines, out, origin, keep);
  }

  /** `out` consists of the lines outside the blocks and those of the chosen side, but for an empty last line of it:
      all of them, each once, in order, and nothing else. */
  ghost predicate KeepsExactly(lines: seq<string>, tagOf: string -> Tag, theirs: bool, out: seq<string>) {
    var spans := Spans(Tags(lines, tagOf), 0);
    Exactly(lines, out, (x: nat) => Remains(lines, theirs, spans, x))
  }

  lemma LinesKept(lines: seq<string>, tagOf: string -> Tag, theirs: bool)
    requires NewlineFree(lines)
    ensures KeepsExactly(lines, tagOf, theirs, ResolveLines(lines, tagOf, SidePick(theirs)))
  {
    var spans := Spans(Tags(lines, tagOf), 0);
    var reps := Replacements(SidePick(theirs), ParseLines(lines, tagOf));
    var side, remains := Side(theirs, spans), Remaining(lines, theirs, spans);
    var origin := ResolvedTraced(lines, tagOf, theirs);
    var out := Forward(lines, spans, reps, 0);
    TracedExactly(lines, side, remains, out, Replaced(lines, spans, reps, 0), origin);
    var keep: nat -> bool := (x: nat) => remains(x);
    var same: nat -> bool := (x: nat) => Remains(lines, theirs, spans, x);
    ExactlySame(lines, out, keep, same);
  }

  /** Choosing a side returns the text of exactly those lines. */
  lemma PickKeeps(content: string, theirs: bool) returns (out: seq<string>)
    requires Parse(content) != []
    ensures KeepsExactly(Split(content, '\n'), TagOf, theirs, out)
    ensures Resolve(content, SidePick(theirs)) == Join(out, '\n')
  {
    SplitParts(content, '\n');
    LinesKept(Split(content, '\n'), TagOf, theirs);
    out := ResolveLines(Split(content, '\n'), TagOf, SidePick(theirs));
  }

  /** A block's replacement, whatever the pick: the chosen text by lines, without an empty last one. */
  lemma ReplacementSpelled(b: Block, choose: Block -> string, text: string)
    ensures Chosen(Ours, b) == b.ours && Chosen(Theirs, b) == b.theirs && Chosen(Custom(choose), b) == choose(b)
    ensures var parts := Split(text, '\n');
            ReplacementLines(text) == if parts[|parts| - 1] == "" then parts[..|parts| - 1] else parts
  {
  }

  /** A text without blocks is returned as it is. */
  lemma NothingToResolve(content: string, pick: Pick)
    requires Parse(content) == []
    ensures Resolve(content, pick) == content
  {
  }
}
