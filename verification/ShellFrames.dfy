/** Cutting the shell's input stream into newline-terminated frames, whatever chunks it arrives in. */
module ShellFrames {
  import opened Text

  type Bytes = seq<bv8>

  const NEWLINE: bv8 := 10
  const LIMIT := 128 * 1024

  // ---- The whole input at once ---------------------------------------------------------------

  /** Every newline-terminated line, without its newline. */
  function Lines(s: Bytes): seq<Bytes>
    decreases |s|
  {
    if NEWLINE !in s then [] else [Head(s)] + Lines(Rest(s))
  }

  /** What follows the last newline. */
  function Tail(s: Bytes): Bytes
    decreases |s|
  {
    if NEWLINE !in s then s else Tail(Rest(s))
  }

  /** What comes before the first newline. */
  function Head(s: Bytes): (h: Bytes)
    ensures NEWLINE !in h && h <= s
    ensures NEWLINE in s ==> |h| < |s| && s[|h|] == NEWLINE
  {
    if s == [] || s[0] == NEWLINE then [] else [s[0]] + Head(s[1..])
  }

  /** What comes after the first newline. */
  function Rest(s: Bytes): Bytes
    requires NEWLINE in s
  {
    s[|Head(s)| + 1..]
  }

  function Concat(chunks: seq<Bytes>): Bytes {
    if chunks == [] then [] else chunks[0] + Concat(chunks[1..])
  }

  // ---- Chunk by chunk ------------------------------------------------------------------------

  datatype Reading = Reading(frames: seq<Bytes>, buffer: Bytes, raised: bool)

  /** `data` is one chunk, never empty: an empty read ends the input. */
  function Feed(buffer: Bytes, data: Bytes): Reading {
    if |buffer + data| > LIMIT then Reading([], buffer + data, true)
    else Reading(Lines(buffer + data), Tail(buffer + data), false)
  }

  function FeedAll(buffer: Bytes, chunks: seq<Bytes>): Reading
    decreases |chunks|
  {
    if chunks == [] then Reading([], buffer, false)
    else
      var first := Feed(buffer, chunks[0]);
      if first.raised then first
      else
        var rest := FeedAll(first.buffer, chunks[1..]);
        Reading(first.frames + rest.frames, rest.buffer, rest.raised)
  }

  /** The inner loop: splits off one line after the other. */
  method SplitFrames(data: Bytes) returns (frames: seq<Bytes>, buffer: Bytes)
    ensures frames == Lines(data) && buffer == Tail(data)
  {
    frames, buffer := [], data;
    while NEWLINE in buffer
      invariant Lines(data) == frames + Lines(buffer) && Tail(data) == Tail(buffer)
      decreases |buffer|
    {
      frames, buffer := frames + [Head(buffer)], Rest(buffer);
    }
  }

  /** The reader; frames already delivered stay delivered when it raises. */
  method Incoming(chunks: seq<Bytes>) returns (frames: seq<Bytes>, raised: bool)
    ensures var r := FeedAll([], chunks); frames == r.frames && raised == r.raised
  {
    var buffer: Bytes := [];
    frames := [];
    for i := 0 to |chunks|
      invariant FeedAll([], chunks).frames == frames + FeedAll(buffer, chunks[i..]).frames
      invariant FeedAll([], chunks).raised == FeedAll(buffer, chunks[i..]).raised
    {
      assert chunks[i..][1..] == chunks[i + 1..] && chunks[i..][0] == chunks[i];
      buffer := buffer + chunks[i];
      if |buffer| > LIMIT {
        return frames, true;
      }
      var more;
      more, buffer := SplitFrames(buffer);
      frames := frames + more;
    }
    raised := false;
  }

  // ---- Cutting is independent of chunking ------------------------------------------------------

  lemma {:induction false} HeadConcat(a: Bytes, b: Bytes)
    requires NEWLINE in a
    ensures Head(a + b) == Head(a) && Rest(a + b) == Rest(a) + b
  {
    if a[0] == NEWLINE {
      assert (a + b)[1..] == a[1..] + b;
    } else {
      HeadConcat(a[1..], b);
      assert (a + b)[1..] == a[1..] + b;
      var n := |Head(a)| + 1;
      assert (a + b)[n..] == a[n..] + b;
    }
  }

  lemma {:induction false} LinesConcat(a: Bytes, b: Bytes)
    ensures Lines(a + b) == Lines(a) + Lines(Tail(a) + b)
    ensures Tail(a + b) == Tail(Tail(a) + b)
    decreases |a|
  {
    if NEWLINE in a {
      HeadConcat(a, b);
      LinesConcat(Rest(a), b);
    }
  }

  lemma {:induction false} TailIsOpen(s: Bytes)
    ensures NEWLINE !in Tail(s) && Lines(Tail(s)) == [] && Tail(Tail(s)) == Tail(s)
    decreases |s|
  {
    if NEWLINE in s {
      TailIsOpen(Rest(s));
    }
  }

  lemma {:induction false} FeedAllExact(buffer: Bytes, chunks: seq<Bytes>)
    requires NEWLINE !in buffer && !FeedAll(buffer, chunks).raised
    ensures FeedAll(buffer, chunks) == Reading(Lines(buffer + Concat(chunks)), Tail(buffer + Concat(chunks)), false)
    decreases |chunks|
  {
    if chunks == [] {
      assert buffer + Concat(chunks) == buffer;
    } else {
      var b := buffer + chunks[0];
      TailIsOpen(b);
      FeedAllExact(Tail(b), chunks[1..]);
      LinesConcat(b, Concat(chunks[1..]));
      assert buffer + Concat(chunks) == b + Concat(chunks[1..]);
    }
  }

  /** A reader that does not raise delivers exactly the newline-terminated lines of its whole input. */
  lemma FramesAreLines(chunks: seq<Bytes>)
    requires !FeedAll([], chunks).raised
    ensures FeedAll([], chunks).frames == Lines(Concat(chunks))
  {
    FeedAllExact([], chunks);
    assert [] + Concat(chunks) == Concat(chunks);
  }

  function Unlines(lines: seq<Bytes>): Bytes {
    if lines == [] then [] else lines[0] + [NEWLINE] + Unlines(lines[1..])
  }

  /** Cutting loses nothing: the lines with their newlines, then the tail, are the input again. */
  lemma {:induction false} LinesRebuild(s: Bytes)
    ensures Unlines(Lines(s)) + Tail(s) == s
    decreases |s|
  {
    if NEWLINE in s {
      LinesRebuild(Rest(s));
      HeadAndRest(s);
      ConcatAssociates(Head(s) + [NEWLINE], Unlines(Lines(Rest(s))), Tail(Rest(s)));
      assert Lines(s)[1..] == Lines(Rest(s));
    }
  }

  lemma HeadAndRest(s: Bytes)
    requires NEWLINE in s
    ensures s == Head(s) + [NEWLINE] + Rest(s)
  {
  }

  /** And it adds nothing: newline-free lines written out are cut into themselves. */
  lemma {:induction false} LinesRoundTrip(lines: seq<Bytes>, tail: Bytes)
    requires NEWLINE !in tail && forall i :: 0 <= i < |lines| ==> NEWLINE !in lines[i]
    ensures Lines(Unlines(lines) + tail) == lines && Tail(Unlines(lines) + tail) == tail
  {
    if lines == [] {
      assert Unlines(lines) + tail == tail;
    } else {
      var rest := Unlines(lines[1..]) + tail;
      LinesRoundTrip(lines[1..], tail);
      assert Unlines(lines) + tail == lines[0] + [NEWLINE] + rest;
      FirstLine(lines[0], rest);
    }
  }

  lemma {:induction false} FirstLine(line: Bytes, rest: Bytes)
    requires NEWLINE !in line
    ensures var s := line + [NEWLINE] + rest; NEWLINE in s && Head(s) == line && Rest(s) == rest
  {
    var s := line + [NEWLINE] + rest;
    assert s[|line|] == NEWLINE;
    if line != [] {
      FirstLine(line[1..], rest);
      assert s[1..] == line[1..] + [NEWLINE] + rest;
      assert s[0] == line[0] && line[0] in line;
    }
  }

  // ---- When the reader raises ------------------------------------------------------------------

  /** Chunk `k`, together with the unfinished line before it, exceeds the limit. */
  ghost predicate Overflows(chunks: seq<Bytes>, k: nat) {
    k < |chunks| && |Tail(Concat(chunks[..k]))| + |chunks[k]| > LIMIT
  }

  lemma ConcatCons(chunk: Bytes, rest: seq<Bytes>)
    ensures Concat([chunk] + rest) == chunk + Concat(rest)
  {
    assert ([chunk] + rest)[1..] == rest;
  }

  lemma {:induction false} ConcatSnoc(chunks: seq<Bytes>, more: seq<Bytes>)
    ensures Concat(chunks + more) == Concat(chunks) + Concat(more)
  {
    if chunks == [] {
      assert chunks + more == more && [] + Concat(more) == Concat(more);
    } else {
      var c, t := chunks[0], chunks[1..];
      calc {
        Concat(chunks + more);
        { assert chunks + more == [c] + (t + more); }
        Concat([c] + (t + more));
        { ConcatCons(c, t + more); }
        c + Concat(t + more);
        { ConcatSnoc(t, more); }
        c + (Concat(t) + Concat(more));
        { ConcatAssociates(c, Concat(t), Concat(more)); }
        c + Concat(t) + Concat(more);
        { ConcatCons(c, t); assert chunks == [c] + t; }
        Concat(chunks) + Concat(more);
      }
    }
  }

  /** Reading one chunk more. */
  lemma {:induction false} FeedAllSnoc(buffer: Bytes, chunks: seq<Bytes>, data: Bytes)
    ensures FeedAll(buffer, chunks).raised ==> FeedAll(buffer, chunks + [data]).raised
    ensures !FeedAll(buffer, chunks).raised ==>
              FeedAll(buffer, chunks + [data]).raised == (|FeedAll(buffer, chunks).buffer| + |data| > LIMIT)
    decreases |chunks|
  {
    if chunks == [] {
      assert chunks + [data] == [data];
      assert [data][1..] == [];
    } else {
      assert (chunks + [data])[1..] == chunks[1..] + [data];
      FeedAllSnoc(Tail(buffer + chunks[0]), chunks[1..], data);
    }
  }

  /** The reader raises iff some chunk overflows the line it continues. */
  lemma {:induction false} RaisesIff(chunks: seq<Bytes>)
    ensures FeedAll([], chunks).raised <==> exists k :: 0 <= k < |chunks| && Overflows(chunks, k)
  {
    if chunks != [] {
      var front, data := chunks[..|chunks| - 1], chunks[|chunks| - 1];
      assert chunks == front + [data];
      RaisesIff(front);
      FeedAllSnoc([], front, data);
      forall k | 0 <= k < |front| ensures Overflows(front, k) <==> Overflows(chunks, k) {
        assert front[..k] == chunks[..k];
      }
      if !FeedAll([], front).raised {
        FeedAllExact([], front);
        assert [] + Concat(front) == Concat(front);
        assert Overflows(chunks, |front|) <==> |FeedAll([], front).buffer| + |data| > LIMIT;
      }
    }
  }

  /** Every line, the unterminated last one included, has at most `n` bytes. */
  ghost predicate LinesFit(s: Bytes, n: nat) {
    (forall i :: 0 <= i < |Lines(s)| ==> |Lines(s)[i]| <= n) && |Tail(s)| <= n
  }

  lemma FirstLineFits(a: Bytes, b: Bytes, n: nat)
    requires NEWLINE !in a && LinesFit(a + b, n)
    ensures |a| <= n
  {
    var s := a + b;
    if NEWLINE in s {
      assert Lines(s)[0] == Head(s);
      assert |a| <= |Head(s)| by {
        assert forall i :: 0 <= i < |a| ==> s[i] == a[i] && a[i] in a;
      }
    }
  }

  lemma RestFits(a: seq<Bytes>, b: seq<Bytes>, n: nat)
    requires forall i :: 0 <= i < |a + b| ==> |(a + b)[i]| <= n
    ensures forall i :: 0 <= i < |b| ==> |b[i]| <= n
  {
    forall i | 0 <= i < |b| ensures |b[i]| <= n {
      assert (a + b)[|a| + i] == b[i];
    }
  }

  lemma PrefixTailFits(a: Bytes, b: Bytes, n: nat)
    requires LinesFit(a + b, n)
    ensures |Tail(a)| <= n
  {
    LinesConcat(a, b);
    TailIsOpen(a);
    RestFits(Lines(a), Lines(Tail(a) + b), n);
    FirstLineFits(Tail(a), b, n);
  }

  lemma ShortTail(chunks: seq<Bytes>, k: nat)
    requires k < |chunks| && LinesFit(Concat(chunks), 98304)
    ensures |Tail(Concat(chunks[..k]))| <= 98304
  {
    ConcatSnoc(chunks[..k], chunks[k..]);
    assert chunks == chunks[..k] + chunks[k..];
    PrefixTailFits(Concat(chunks[..k]), Concat(chunks[k..]), 98304);
  }

  /** With reads of at most 32768 bytes, lines of at most 98304 bytes never raise, so every chunking delivers
      the same frames. */
  lemma ShortLinesNeverRaise(chunks: seq<Bytes>)
    requires (forall k :: 0 <= k < |chunks| ==> |chunks[k]| <= 32768) && LinesFit(Concat(chunks), 98304)
    ensures !FeedAll([], chunks).raised && FeedAll([], chunks).frames == Lines(Concat(chunks))
  {
    RaisesIff(chunks);
    forall k | 0 <= k < |chunks| ensures !Overflows(chunks, k) {
      ShortTail(chunks, k);
    }
    FramesAreLines(chunks);
  }

  /** The safe length is the best possible: behind any longer unfinished line, a read that starts with its
      newline can raise. */
  lemma LongerLineCanRaise(chunks: seq<Bytes>, last: Bytes)
    requires 10 !in Concat(chunks) && |Concat(chunks)| > 98304
    requires |last| == 32768 && last[0] == 10
    ensures FeedAll([], chunks + [last]).raised
  {
    RaisesIff(chunks + [last]);
    assert (chunks + [last])[..|chunks|] == chunks;
    assert Overflows(chunks + [last], |chunks|);
  }

  /** Frames the reader delivers are never longer than the limit allows. */
  lemma {:induction false} LinesShorter(s: Bytes)
    ensures forall i :: 0 <= i < |Lines(s)| ==> |Lines(s)[i]| < |s|
    decreases |s|
  {
    if NEWLINE in s {
      LinesShorter(Rest(s));
    }
  }

  lemma {:induction false} FramesAreShort(buffer: Bytes, chunks: seq<Bytes>)
    ensures forall i :: 0 <= i < |FeedAll(buffer, chunks).frames| ==> |FeedAll(buffer, chunks).frames[i]| < LIMIT
    decreases |chunks|
  {
    if chunks != [] && !Feed(buffer, chunks[0]).raised {
      LinesShorter(buffer + chunks[0]);
      FramesAreShort(Tail(buffer + chunks[0]), chunks[1..]);
    }
  }

  /** A newline-terminated line of 131072 bytes or more always raises, however it is chunked. */
  lemma LongLineAlwaysRaises(chunks: seq<Bytes>, i: nat)
    requires i < |Lines(Concat(chunks))| && |Lines(Concat(chunks))[i]| >= 131072
    ensures FeedAll([], chunks).raised
  {
    if !FeedAll([], chunks).raised {
      FramesAreLines(chunks);
      FramesAreShort([], chunks);
    }
  }

  // ---- Writing input out -----------------------------------------------------------------------

  /** A pipe that accepts at least one byte of every non-empty write, but perhaps not all of them. */
  class Sink {
    var received: Bytes

    constructor ()
      ensures received == []
    {
      received := [];
    }

    method Write(payload: Bytes, room: nat) returns (n: nat)
      requires payload != []
      modifies this
      ensures 1 <= n <= |payload| && received == old(received) + payload[..n]
    {
      n := if room == 0 then 1 else if room < |payload| then room else |payload|;
      received := received + payload[..n];
    }

    /** Repeats partial writes until nothing is left: every byte arrives once and in order. `rooms` is what
        the pipe has room for at each attempt. */
    method WriteAll(payload: Bytes, rooms: nat -> nat)
      modifies this
      ensures received == old(received) + payload
    {
      var left, attempt := payload, 0;
      while left != []
        invariant received + left == old(received) + payload
        decreases |left|
      {
        var n := Write(left, rooms(attempt));
        assert left == left[..n] + left[n..];
        left, attempt := left[n..], attempt + 1;
      }
    }
  }

  // ---- In numbers --------------------------------------------------------------------------------

  /** `t` is what follows the last byte 10 of `s`, or all of it. */
  predicate FollowsLastTen(s: Bytes, t: Bytes) {
    10 !in t && |t| <= |s| && s[|s| - |t|..] == t && (|t| < |s| ==> s[|s| - |t| - 1] == 10)
  }

  lemma BehindTen(a: Bytes, rest: Bytes, t: Bytes)
    requires FollowsLastTen(rest, t)
    ensures FollowsLastTen(a + [10] + rest, t)
  {
    var s := a + [10] + rest;
    assert s[|a| + 1..] == rest && s[|a|] == 10;
    assert s[|s| - |t|..] == rest[|rest| - |t|..];
  }

  lemma {:induction false} TailSpelled(s: Bytes)
    ensures FollowsLastTen(s, Tail(s))
    decreases |s|
  {
    if NEWLINE in s {
      TailSpelled(Rest(s));
      BehindTen(Head(s), Rest(s), Tail(Rest(s)));
      HeadAndRest(s);
    }
  }

  /** The pieces before it hold no such byte. */
  lemma {:induction false} LinesSpelled(s: Bytes)
    ensures forall i :: 0 <= i < |Lines(s)| ==> 10 !in Lines(s)[i]
    decreases |s|
  {
    if NEWLINE in s {
      LinesSpelled(Rest(s));
    }
  }

  /** A reader raises exactly if, for some chunk, the bytes since the last byte 10 before it and the chunk
      together are more than 131072. */
  lemma RaisesSpelled(chunks: seq<Bytes>)
    ensures FeedAll([], chunks).raised <==>
            exists k :: 0 <= k < |chunks| && |Tail(Concat(chunks[..k]))| + |chunks[k]| > 131072
  {
    RaisesIff(chunks);
    forall k: nat | k < |chunks|
      ensures Overflows(chunks, k) <==> |Tail(Concat(chunks[..k]))| + |chunks[k]| > 131072
    {
    }
  }

  /** Nothing is delivered from the chunk that raises on, and everything before it is. */
  lemma {:induction false} DeliveredBefore(buffer: Bytes, chunks: seq<Bytes>, k: nat)
    requires k < |chunks| && !FeedAll(buffer, chunks[..k]).raised
    requires |FeedAll(buffer, chunks[..k]).buffer| + |chunks[k]| > LIMIT
    ensures FeedAll(buffer, chunks).frames == FeedAll(buffer, chunks[..k]).frames
    decreases |chunks|
  {
    if k == 0 {
      assert chunks[..0] == [];
    } else {
      assert chunks[..k][0] == chunks[0] && chunks[..k][1..] == chunks[1..][..k - 1];
      DeliveredBefore(Tail(buffer + chunks[0]), chunks[1..], k - 1);
    }
  }

  /** A reader that raises at chunk `k`, and not before, has delivered the lines of the chunks before it. */
  lemma FramesBeforeRaise(chunks: seq<Bytes>, k: nat)
    requires k < |chunks| && |Tail(Concat(chunks[..k]))| + |chunks[k]| > 131072
    requires forall j :: 0 <= j < k ==> |Tail(Concat(chunks[..j]))| + |chunks[j]| <= 131072
    ensures FeedAll([], chunks).raised && FeedAll([], chunks).frames == Lines(Concat(chunks[..k]))
  {
    RaisesSpelled(chunks);
    var front := chunks[..k];
    forall j | 0 <= j < |front| ensures |Tail(Concat(front[..j]))| + |front[j]| <= 131072 {
      assert front[..j] == chunks[..j];
    }
    RaisesSpelled(front);
    FramesAreLines(front);
    FeedAllExact([], front);
    assert [] + Concat(front) == Concat(front);
    DeliveredBefore([], chunks, k);
  }
}
