/** Splitting, joining and trimming, shared by every module that follows a text protocol. */
module Text {

  datatype Option<+T> = None | Some(value: T)

  lemma ConcatAssociates<T>(a: seq<T>, b: seq<T>, c: seq<T>)
    ensures a + b + c == a + (b + c)
  {
  }

  /** `s.split(sep)` for a one-character separator: never empty, and "" splits into [""]. */
  function Split(s: string, sep: char): (parts: seq<string>)
    ensures |parts| >= 1
  {
    if s == "" then [""]
    else if s[0] == sep then [""] + Split(s[1..], sep)
    else
      var rest := Split(s[1..], sep);
      [[s[0]] + rest[0]] + rest[1..]
  }

  /** `parts.join(sep)`. */
  function Join(parts: seq<string>, sep: char): string {
    if |parts| == 0 then ""
    else if |parts| == 1 then parts[0]
    else parts[0] + [sep] + Join(parts[1..], sep)
  }

  lemma {:induction false} SplitParts(s: string, sep: char)
    ensures forall i :: 0 <= i < |Split(s, sep)| ==> sep !in Split(s, sep)[i]
  {
    if s != "" {
      SplitParts(s[1..], sep);
    }
  }

  lemma {:induction false} SplitWhole(s: string, sep: char)
    requires sep !in s
    ensures Split(s, sep) == [s]
  {
    if s != "" {
      SplitWhole(s[1..], sep);
      assert s == [s[0]] + s[1..];
      assert s[0] in s;
    }
  }

  /** What one more character in front does to the parts. */
  function PrependChar(c: char, parts: seq<string>, sep: char): seq<string>
    requires |parts| >= 1
  {
    if c == sep then [""] + parts else [[c] + parts[0]] + parts[1..]
  }

  lemma SplitCons(c: char, s: string, sep: char)
    ensures Split([c] + s, sep) == PrependChar(c, Split(s, sep), sep)
  {
    assert ([c] + s)[1..] == s;
  }

  lemma PrependCharConcat(c: char, parts: seq<string>, more: seq<string>, sep: char)
    requires |parts| >= 1
    ensures PrependChar(c, parts + more, sep) == PrependChar(c, parts, sep) + more
  {
    assert (parts + more)[1..] == parts[1..] + more;
  }

  lemma {:induction false} SplitConcat(a: string, b: string, sep: char)
    ensures Split(a + [sep] + b, sep) == Split(a, sep) + Split(b, sep)
  {
    if a == "" {
      assert a + [sep] + b == [sep] + b;
      SplitCons(sep, b, sep);
    } else {
      var c, t := a[0], a[1..];
      calc {
        Split(a + [sep] + b, sep);
        { assert a + [sep] + b == [c] + (t + [sep] + b); }
        Split([c] + (t + [sep] + b), sep);
        { SplitCons(c, t + [sep] + b, sep); }
        PrependChar(c, Split(t + [sep] + b, sep), sep);
        { SplitConcat(t, b, sep); }
        PrependChar(c, Split(t, sep) + Split(b, sep), sep);
        { PrependCharConcat(c, Split(t, sep), Split(b, sep), sep); }
        PrependChar(c, Split(t, sep), sep) + Split(b, sep);
        { SplitCons(c, t, sep); assert [c] + t == a; }
        Split(a, sep) + Split(b, sep);
      }
    }
  }

  lemma {:induction false} JoinSplit(s: string, sep: char)
    ensures Join(Split(s, sep), sep) == s
  {
    if s != "" {
      JoinSplit(s[1..], sep);
      var rest := Split(s[1..], sep);
      if s[0] == sep {
        assert Split(s, sep)[1..] == rest;
      } else {
        assert Split(s, sep)[1..] == rest[1..];
      }
    }
  }

  lemma {:induction false} SplitJoin(parts: seq<string>, sep: char)
    requires |parts| >= 1
    requires forall i :: 0 <= i < |parts| ==> sep !in parts[i]
    ensures Split(Join(parts, sep), sep) == parts
  {
    SplitWhole(parts[0], sep);
    if |parts| > 1 {
      SplitJoin(parts[1..], sep);
      SplitConcat(parts[0], Join(parts[1..], sep), sep);
    }
  }

  lemma {:induction false} JoinConcat(a: seq<string>, b: seq<string>, sep: char)
    requires a != [] && b != []
    ensures Join(a + b, sep) == Join(a, sep) + [sep] + Join(b, sep)
  {
    if |a| == 1 {
      assert (a + b)[1..] == b;
    } else {
      JoinConcat(a[1..], b, sep);
      assert (a + b)[1..] == a[1..] + b;
    }
  }

  /** ECMAScript white space and line terminators: what `\s` matches and `trim` removes. */
  predicate IsSpace(c: char) {
    || c in "\t\n\r " || c == '\U{000B}' || c == '\U{000C}' || c == '\U{00A0}' || c == '\U{1680}'
    || '\U{2000}' <= c <= '\U{200A}' || c == '\U{2028}' || c == '\U{2029}' || c == '\U{202F}'
    || c == '\U{205F}' || c == '\U{3000}' || c == '\U{FEFF}'
  }

  function TrimStart(s: string): string {
    if s != "" && IsSpace(s[0]) then TrimStart(s[1..]) else s
  }

  function TrimEnd(s: string): string {
    if s != "" && IsSpace(s[|s| - 1]) then TrimEnd(s[..|s| - 1]) else s
  }

  /** `s.trim()`. */
  function Trim(s: string): string {
    TrimEnd(TrimStart(s))
  }

  /** `s.strip("/")`. */
  function StripSlashes(s: string): (r: string)
    ensures r == "" || (r[0] != '/' && r[|r| - 1] != '/')
  {
    if s != "" && s[0] == '/' then StripSlashes(s[1..])
    else if s != "" && s[|s| - 1] == '/' then StripSlashes(s[..|s| - 1])
    else s
  }

  lemma StripSlashesFixed(s: string)
    requires s == "" || (s[0] != '/' && s[|s| - 1] != '/')
    ensures StripSlashes(s) == s
  {
  }

  // ---- What trimming removes ---------------------------------------------------------------------

  /** `r` is `s` without the characters `out` takes away at its two ends, and no more of them can go. */
  ghost predicate Stripped(s: string, r: string, out: char -> bool) {
    && (exists lo: nat, hi: nat :: lo <= hi <= |s| && r == s[lo..hi] && OutsideAre(s, lo, hi, out))
    && (r != "" ==> !out(r[0]) && !out(r[|r| - 1]))
  }

  ghost predicate OutsideAre(s: string, lo: nat, hi: nat, out: char -> bool) {
    forall i :: 0 <= i < |s| && !(lo <= i < hi) ==> out(s[i])
  }

  lemma {:induction false} TrimStartIs(s: string) returns (lo: nat)
    ensures lo <= |s| && TrimStart(s) == s[lo..]
    ensures (forall i :: 0 <= i < lo ==> IsSpace(s[i])) && (lo < |s| ==> !IsSpace(s[lo]))
  {
    if s != "" && IsSpace(s[0]) {
      lo := TrimStartIs(s[1..]);
      assert forall i :: 0 < i < |s| ==> s[i] == s[1..][i - 1];
      lo := lo + 1;
    } else {
      lo := 0;
    }
  }

  lemma {:induction false} TrimEndIs(s: string) returns (hi: nat)
    ensures hi <= |s| && TrimEnd(s) == s[..hi]
    ensures (forall i :: hi <= i < |s| ==> IsSpace(s[i])) && (hi > 0 ==> !IsSpace(s[hi - 1]))
  {
    if s != "" && IsSpace(s[|s| - 1]) {
      hi := TrimEndIs(s[..|s| - 1]);
    } else {
      hi := |s|;
    }
  }

  /** Trimming removes the white space at both ends and nothing else. */
  lemma TrimIs(s: string)
    ensures Stripped(s, Trim(s), IsSpace)
  {
    var lo := TrimStartIs(s);
    var hi := TrimEndIs(s[lo..]);
    assert s[lo..][..hi] == s[lo..lo + hi];
    forall i | 0 <= i < |s| && !(lo <= i < lo + hi) ensures IsSpace(s[i]) {
      assert i >= lo ==> s[i] == s[lo..][i - lo];
    }
    assert OutsideAre(s, lo, lo + hi, IsSpace);
  }

  lemma {:induction false} StrippedFrom(s: string) returns (lo: nat, hi: nat)
    ensures lo <= hi <= |s| && StripSlashes(s) == s[lo..hi]
    ensures forall i :: 0 <= i < |s| && !(lo <= i < hi) ==> s[i] == '/'
    decreases |s|
  {
    if s != "" && s[0] == '/' {
      lo, hi := StrippedFrom(s[1..]);
      assert forall i :: 0 < i < |s| ==> s[i] == s[1..][i - 1];
      lo, hi := lo + 1, hi + 1;
    } else if s != "" && s[|s| - 1] == '/' {
      lo, hi := StrippedFrom(s[..|s| - 1]);
    } else {
      lo, hi := 0, |s|;
    }
  }

  /** Stripping removes the slashes at both ends and nothing else. */
  lemma StripSlashesIs(s: string)
    ensures Stripped(s, StripSlashes(s), c => c == '/')
  {
    var lo, hi := StrippedFrom(s);
    var slash: char -> bool := c => c == '/';
    assert OutsideAre(s, lo, hi, slash);
  }

  /** What is stripped is determined by that. */
  lemma StrippedUnique(s: string, a: string, b: string, out: char -> bool)
    requires Stripped(s, a, out) && Stripped(s, b, out)
    ensures a == b
  {
    var i: nat, j: nat :| i <= j <= |s| && a == s[i..j] && OutsideAre(s, i, j, out);
    var k: nat, m: nat :| k <= m <= |s| && b == s[k..m] && OutsideAre(s, k, m, out);
    if i < j {
      InsideOther(s, i, j, k, m, out);
    }
    if k < m {
      InsideOther(s, k, m, i, j, out);
    }
    assert i < j ==> i == k && j == m;
  }

  lemma InsideOther(s: string, i: nat, j: nat, k: nat, m: nat, out: char -> bool)
    requires i < j <= |s| && !out(s[i..j][0]) && !out(s[i..j][|s[i..j]| - 1]) && OutsideAre(s, k, m, out)
    ensures k <= i && j <= m
  {
    assert s[i..j][0] == s[i] && s[i..j][|s[i..j]| - 1] == s[j - 1];
  }

  /** Blanks, tabs, line ends, no-break spaces and the byte order mark are white space; what can be seen is not. */
  lemma Spaces(c: char)
    ensures c in " \t\n\r\U{000B}\U{000C}\U{00A0}\U{1680}\U{2028}\U{2029}\U{202F}\U{205F}\U{3000}\U{FEFF}"
              || '\U{2000}' <= c <= '\U{200A}'
       <==> IsSpace(c)
  {
  }
}
