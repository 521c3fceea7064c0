/** Which runs of lines form a conflict block, once every line is known to be an open line, a
    separator, a close line or plain text. */
module MarkerScan {
  import opened Text

  datatype Tag = Open | Separator | Close | Plain

  /** The three marker lines of one block. */
  datatype Span = Span(open: nat, separator: nat, close: nat)

  ghost predicate IsSpan(tags: seq<Tag>, b: Span) {
    && b.open < b.separator < b.close < |tags|
    && tags[b.open].Open? && tags[b.separator].Separator? && tags[b.close].Close?
  }

  // ---- The rescanning parser -----------------------------------------------------------------

  function First(tags: seq<Tag>, tag: Tag, i: nat): (k: nat)
    requires i <= |tags|
    ensures i <= k <= |tags| && (k < |tags| ==> tags[k] == tag)
    decreases |tags| - i
  {
    if i == |tags| || tags[i] == tag then i else First(tags, tag, i + 1)
  }

  lemma {:induction false} FirstAtMost(tags: seq<Tag>, tag: Tag, i: nat, k: nat)
    requires i <= k < |tags| && tags[k] == tag
    ensures First(tags, tag, i) <= k
    decreases k - i
  {
    if i < k && tags[i] != tag {
      FirstAtMost(tags, tag, i + 1, k);
    }
  }

  lemma {:induction false} FirstIs(tags: seq<Tag>, tag: Tag, i: nat, k: nat)
    requires i <= k < |tags| && tags[k] == tag && forall j :: i <= j < k ==> tags[j] != tag
    ensures First(tags, tag, i) == k
    decreases k - i
  {
    if i < k {
      FirstIs(tags, tag, i + 1, k);
    }
  }

  /** The block opened at `open`: the first separator after it, then the first close after that. */
  function Scan(tags: seq<Tag>, open: nat): (found: Option<Span>)
    requires open < |tags| && tags[open].Open?
    ensures found.Some? ==> IsSpan(tags, found.value) && found.value.open == open
  {
    var separator := First(tags, Separator, open + 1);
    if separator == |tags| then None
    else
      var close := First(tags, Close, separator + 1);
      if close == |tags| then None else Some(Span(open, separator, close))
  }

  function Spans(tags: seq<Tag>, i: nat): seq<Span>
    requires i <= |tags|
    decreases |tags| - i
  {
    if i == |tags| then []
    else if !tags[i].Open? then Spans(tags, i + 1)
    else match Scan(tags, i)
      case None => Spans(tags, i + 1)
      case Some(b) => [b] + Spans(tags, b.close + 1)
  }

  // ---- What the rescanning amounts to --------------------------------------------------------

  /** Some separator at or after `i` has a close after it. */
  ghost predicate CanFinish(tags: seq<Tag>, i: nat) {
    exists s, c :: i <= s < c < |tags| && tags[s].Separator? && tags[c].Close?
  }

  /** A scan succeeds exactly if a separator and then a close follow; so once the scan from one open
      line fails, the scan from every later open line fails too. */
  lemma ScanIff(tags: seq<Tag>, open: nat)
    requires open < |tags| && tags[open].Open?
    ensures Scan(tags, open).Some? <==> CanFinish(tags, open + 1)
  {
    if s, c :| open + 1 <= s < c < |tags| && tags[s].Separator? && tags[c].Close? {
      FirstAtMost(tags, Separator, open + 1, s);
      FirstAtMost(tags, Close, First(tags, Separator, open + 1) + 1, c);
    }
  }

  lemma {:induction false} NoSpansAfterFailure(tags: seq<Tag>, i: nat, j: nat)
    requires i <= j <= |tags| && !CanFinish(tags, i)
    ensures Spans(tags, j) == []
    decreases |tags| - j
  {
    if j < |tags| {
      NoSpansAfterFailure(tags, i, j + 1);
      if tags[j].Open? {
        ScanIff(tags, j);
      }
    }
  }

  /** Where a one-pass parser stands: outside, after an open line, or after its separator. */
  datatype Mode = Outside | InOurs(open: nat) | InTheirs(open: nat, separator: nat)

  /** Every line is looked at once, and nothing is ever looked at again. */
  function OnePass(tags: seq<Tag>, i: nat, mode: Mode): seq<Span>
    requires i <= |tags|
    decreases |tags| - i
  {
    if i == |tags| then []
    else match mode
      case Outside => OnePass(tags, i + 1, if tags[i].Open? then InOurs(i) else Outside)
      case InOurs(open) => OnePass(tags, i + 1, if tags[i].Separator? then InTheirs(open, i) else mode)
      case InTheirs(open, separator) =>
        if tags[i].Close? then [Span(open, separator, i)] + OnePass(tags, i + 1, Outside)
        else OnePass(tags, i + 1, mode)
  }

  lemma {:induction false} OnePassTheirs(tags: seq<Tag>, i: nat, open: nat, separator: nat)
    requires i <= |tags|
    ensures var close := First(tags, Close, i);
            OnePass(tags, i, InTheirs(open, separator)) ==
            if close == |tags| then [] else [Span(open, separator, close)] + OnePass(tags, close + 1, Outside)
    decreases |tags| - i
  {
    if i < |tags| && !tags[i].Close? {
      OnePassTheirs(tags, i + 1, open, separator);
    }
  }

  lemma {:induction false} OnePassOurs(tags: seq<Tag>, i: nat, open: nat)
    requires i <= |tags|
    ensures var separator := First(tags, Separator, i);
            OnePass(tags, i, InOurs(open)) ==
            if separator == |tags| then [] else OnePass(tags, separator + 1, InTheirs(open, separator))
    decreases |tags| - i
  {
    if i < |tags| && !tags[i].Separator? {
      OnePassOurs(tags, i + 1, open);
    }
  }

  /** From an open line, one pass emits the block the scan finds, or nothing any more. */
  lemma OnePassOpened(tags: seq<Tag>, i: nat)
    requires i < |tags| && tags[i].Open?
    ensures OnePass(tags, i, Outside) ==
            match Scan(tags, i) { case None => [] case Some(b) => [b] + OnePass(tags, b.close + 1, Outside) }
  {
    var separator := First(tags, Separator, i + 1);
    OnePassOurs(tags, i + 1, i);
    if separator < |tags| {
      OnePassTheirs(tags, separator + 1, i, separator);
    }
  }

  /** The rescanning parser finds exactly what a single pass finds. */
  lemma {:induction false} SpansAreOnePass(tags: seq<Tag>, i: nat)
    requires i <= |tags|
    ensures Spans(tags, i) == OnePass(tags, i, Outside)
    decreases |tags| - i
  {
    if i < |tags| && tags[i].Open? {
      OnePassOpened(tags, i);
      match Scan(tags, i) {
        case None =>
          ScanIff(tags, i);
          NoSpansAfterFailure(tags, i + 1, i + 1);
        case Some(b) =>
          SpansAreOnePass(tags, b.close + 1);
      }
    } else if i < |tags| {
      SpansAreOnePass(tags, i + 1);
    }
  }

  /** Open, separator and close lines in this order, from line `i` on. */
  ghost predicate HasConflictFrom(tags: seq<Tag>, i: nat) {
    exists b :: IsSpan(tags, b) && i <= b.open
  }

  /** Some block is found exactly if the three kinds of line occur in order. */
  lemma {:induction false} SpansIffConflict(tags: seq<Tag>, i: nat)
    requires i <= |tags|
    ensures Spans(tags, i) != [] <==> HasConflictFrom(tags, i)
    decreases |tags| - i
  {
    if i < |tags| {
      if tags[i].Open? {
        ScanIff(tags, i);
        if Scan(tags, i).Some? {
          assert IsSpan(tags, Scan(tags, i).value);
        }
      }
      SpansIffConflict(tags, i + 1);
      if b :| IsSpan(tags, b) && i <= b.open {
        if b.open == i {
          assert CanFinish(tags, i + 1);
        }
      }
    }
  }

  /** Blocks come in order and do not overlap. */
  ghost predicate Ordered(spans: seq<Span>, lo: nat, hi: nat) {
    && (forall k :: 0 <= k < |spans| ==> lo <= spans[k].open < spans[k].separator < spans[k].close < hi)
    && (forall j, k :: 0 <= j < k < |spans| ==> spans[j].close < spans[k].open)
  }

  lemma OrderedCons(b: Span, rest: seq<Span>, lo: nat, hi: nat)
    requires lo <= b.open < b.separator < b.close < hi && Ordered(rest, b.close + 1, hi)
    ensures Ordered([b] + rest, lo, hi)
  {
    var spans := [b] + rest;
    forall k | 0 <= k < |spans|
      ensures lo <= spans[k].open < spans[k].separator < spans[k].close < hi
    {
      if k > 0 {
        assert spans[k] == rest[k - 1];
      }
    }
    forall j, k | 0 <= j < k < |spans| ensures spans[j].close < spans[k].open {
      assert spans[k] == rest[k - 1];
      if j > 0 {
        assert spans[j] == rest[j - 1];
      }
    }
  }

  lemma OrderedWeaker(spans: seq<Span>, lo: nat, lo2: nat, hi: nat)
    requires Ordered(spans, lo, hi) && lo2 <= lo
    ensures Ordered(spans, lo2, hi)
  {
  }

  lemma {:induction false} SpansOrdered(tags: seq<Tag>, i: nat)
    requires i <= |tags|
    ensures Ordered(Spans(tags, i), i, |tags|)
    decreases |tags| - i
  {
    if i < |tags| {
      if tags[i].Open? && Scan(tags, i).Some? {
        var b := Scan(tags, i).value;
        SpansOrdered(tags, b.close + 1);
        OrderedCons(b, Spans(tags, b.close + 1), i, |tags|);
        assert Spans(tags, i) == [b] + Spans(tags, b.close + 1);
      } else {
        SpansOrdered(tags, i + 1);
        OrderedWeaker(Spans(tags, i + 1), i + 1, i, |tags|);
      }
    }
  }

  /** Before the first block there is no open line, and after it the parser starts afresh. */
  lemma {:induction false} SpansHead(tags: seq<Tag>, i: nat)
    requires i <= |tags| && Spans(tags, i) != []
    ensures var b := Spans(tags, i)[0];
            && i <= b.open < b.close < |tags|
            && (forall k :: i <= k < b.open ==> !tags[k].Open?)
            && Spans(tags, i)[1..] == Spans(tags, b.close + 1)
    decreases |tags| - i
  {
    if tags[i].Open? && Scan(tags, i).Some? {
      assert Spans(tags, i)[0] == Scan(tags, i).value;
    } else {
      SpansHead(tags, i + 1);
      if tags[i].Open? {
        ScanIff(tags, i);
        NoSpansAfterFailure(tags, i + 1, i + 1);
      }
    }
  }

  lemma {:induction false} SpansSkip(tags: seq<Tag>, i: nat, j: nat)
    requires i <= j <= |tags| && forall k :: i <= k < j ==> !tags[k].Open?
    ensures Spans(tags, i) == Spans(tags, j)
    decreases j - i
  {
    if i < j {
      SpansSkip(tags, i + 1, j);
    }
  }

  /** Marker lines with no earlier separator or close between them are read as one block. */
  lemma SpanScans(tags: seq<Tag>, b: Span)
    requires IsSpan(tags, b)
    requires forall k :: b.open < k < b.separator ==> !tags[k].Separator?
    requires forall k :: b.separator < k < b.close ==> !tags[k].Close?
    ensures Spans(tags, b.open) == [b] + Spans(tags, b.close + 1)
  {
    FirstIs(tags, Separator, b.open + 1, b.separator);
    FirstIs(tags, Close, b.separator + 1, b.close);
    assert Scan(tags, b.open) == Some(b);
  }

  /** The scan stops at the first separator, and then at the first close. */
  ghost predicate Tight(tags: seq<Tag>, b: Span, j: nat) {
    j < |tags| ==>
      && (b.open < j < b.separator ==> !tags[j].Separator?)
      && (b.separator < j < b.close ==> !tags[j].Close?)
  }

  lemma ScanTight(tags: seq<Tag>, open: nat, j: nat)
    requires open < |tags| && tags[open].Open? && Scan(tags, open).Some?
    ensures Tight(tags, Scan(tags, open).value, j)
  {
    var b := Scan(tags, open).value;
    if j < |tags| && b.open < j < b.separator && tags[j].Separator? {
      FirstAtMost(tags, Separator, open + 1, j);
    }
    if j < |tags| && b.separator < j < b.close && tags[j].Close? {
      FirstAtMost(tags, Close, b.separator + 1, j);
    }
  }

  lemma {:induction false} SpansTight(tags: seq<Tag>, i: nat, k: nat, j: nat)
    requires i <= |tags| && k < |Spans(tags, i)|
    ensures Tight(tags, Spans(tags, i)[k], j)
    decreases |tags| - i
  {
    if tags[i].Open? && Scan(tags, i).Some? {
      if k == 0 {
        ScanTight(tags, i, j);
      } else {
        SpansTight(tags, Scan(tags, i).value.close + 1, k - 1, j);
      }
    } else {
      SpansTight(tags, i + 1, k, j);
    }
  }

  ghost predicate InSome(spans: seq<Span>, x: int) {
    exists k :: 0 <= k < |spans| && spans[k].open <= x <= spans[k].close
  }

  /** No block is overlooked: an open line outside the blocks is one that nothing finishes. */
  lemma {:induction false} SpansCover(tags: seq<Tag>, i: nat, x: nat)
    requires i <= x < |tags| && tags[x].Open? && !InSome(Spans(tags, i), x)
    ensures !CanFinish(tags, x + 1)
    decreases |tags| - i
  {
    if tags[i].Open? && Scan(tags, i).Some? {
      var b := Scan(tags, i).value;
      var rest := Spans(tags, b.close + 1);
      assert Spans(tags, i) == [b] + rest && Spans(tags, i)[0] == b;
      assert b.close < x;
      InSomeRest(b, rest, x);
      SpansCover(tags, b.close + 1, x);
    } else if i < x {
      SpansCover(tags, i + 1, x);
    } else {
      ScanIff(tags, x);
    }
  }

  lemma InSomeRest(b: Span, rest: seq<Span>, x: int)
    ensures InSome(rest, x) ==> InSome([b] + rest, x)
  {
    if k :| 0 <= k < |rest| && rest[k].open <= x <= rest[k].close {
      assert ([b] + rest)[k + 1] == rest[k];
    }
  }

  lemma {:induction false} SpansAreSpans(tags: seq<Tag>, i: nat, k: nat)
    requires i <= |tags| && k < |Spans(tags, i)|
    ensures IsSpan(tags, Spans(tags, i)[k])
    decreases |tags| - i
  {
    if tags[i].Open? && Scan(tags, i).Some? {
      if k > 0 {
        SpansAreSpans(tags, Scan(tags, i).value.close + 1, k - 1);
      }
    } else {
      SpansAreSpans(tags, i + 1, k);
    }
  }
}
