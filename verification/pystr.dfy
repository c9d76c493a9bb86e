/**
 * The Python `str` operations the archive rewriter relies on, written out
 * with Python's semantics: `strip()`, `lstrip(c)`, `rstrip(c)`, `rfind(c)`,
 * `split(sep)`, `sep.join(parts)` and the substring test `in`.
 */
module PyStr {
  import opened Seqs

  /**
   * Python's `str.isspace` for one character: the characters `str.strip()`
   * removes by default, by code point.
   */
  predicate IsSpace(c: char) {
    var n := c as int;
    || (0x09 <= n <= 0x0d) || (0x1c <= n <= 0x20) || n == 0x85 || n == 0xa0 || n == 0x1680
    || (0x2000 <= n <= 0x200a) || n == 0x2028 || n == 0x2029 || n == 0x202f || n == 0x205f || n == 0x3000
  }

  /**
   * The `chars` argument of Python's `strip`, `lstrip` and `rstrip`: omitted
   * (whitespace is removed) or a single character.
   */
  datatype Chars = Whitespace | Only(c: char)

  /** Whether stripping with `chars` removes `c`. */
  predicate Drops(chars: Chars, c: char) {
    match chars
    case Whitespace => IsSpace(c)
    case Only(d) => c == d
  }

  /** The first position at or after `from` whose character `chars` keeps, or `|s|`. */
  function KeptFrom(s: string, chars: Chars, from: nat): (n: nat)
    requires from <= |s|
    ensures from <= n <= |s|
    ensures n == |s| || !Drops(chars, s[n])
    decreases |s| - from
  {
    if from < |s| && Drops(chars, s[from]) then KeptFrom(s, chars, from + 1) else from
  }

  /** Everything `KeptFrom` steps over is a character `chars` drops. */
  lemma {:induction false} KeptFromSkipped(s: string, chars: Chars, from: nat, k: nat)
    requires from <= k < |s| && k < KeptFrom(s, chars, from)
    ensures Drops(chars, s[k])
    decreases |s| - from
  {
    if from < k {
      KeptFromSkipped(s, chars, from + 1, k);
    }
  }

  /** The end of the last character before `end` that `chars` keeps, or 0. */
  function KeptUntil(s: string, chars: Chars, end: nat): (n: nat)
    requires end <= |s|
    ensures n <= end
    ensures n == 0 || !Drops(chars, s[n - 1])
    decreases end
  {
    if end > 0 && Drops(chars, s[end - 1]) then KeptUntil(s, chars, end - 1) else end
  }

  /** Everything `KeptUntil` steps back over is a character `chars` drops. */
  lemma {:induction false} KeptUntilSkipped(s: string, chars: Chars, end: nat, k: nat)
    requires end <= |s| && KeptUntil(s, chars, end) <= k < end
    ensures Drops(chars, s[k])
    decreases end
  {
    if k < end - 1 {
      KeptUntilSkipped(s, chars, end - 1, k);
    }
  }

  /** Python's `s.lstrip(chars)`: the leading characters `chars` selects are removed. */
  function TrimLeft(s: string, chars: Chars): (r: string)
    ensures |r| <= |s| && r == s[|s| - |r|..]
    ensures r == [] || !Drops(chars, r[0])
  {
    s[KeptFrom(s, chars, 0)..]
  }

  /** Every character `TrimLeft` removed is one `chars` selects. */
  lemma TrimLeftDropped(s: string, chars: Chars, k: nat)
    requires k < |s| - |TrimLeft(s, chars)|
    ensures Drops(chars, s[k])
  {
    KeptFromSkipped(s, chars, 0, k);
  }

  /** Python's `s.rstrip(chars)`: the trailing characters `chars` selects are removed. */
  function TrimRight(s: string, chars: Chars): (r: string)
    ensures |r| <= |s| && r == s[..|r|]
    ensures r == [] || !Drops(chars, r[|r| - 1])
  {
    s[..KeptUntil(s, chars, |s|)]
  }

  /** Every character `TrimRight` removed is one `chars` selects. */
  lemma TrimRightDropped(s: string, chars: Chars, k: nat)
    requires |TrimRight(s, chars)| <= k < |s|
    ensures Drops(chars, s[k])
  {
    KeptUntilSkipped(s, chars, |s|, k);
  }

  /** `KeptUntil` looks only at the characters before `end`. */
  lemma {:induction false} KeptUntilSamePrefix(s: string, t: string, chars: Chars, end: nat)
    requires end <= |s| && end <= |t|
    requires forall k :: 0 <= k < end ==> s[k] == t[k]
    ensures KeptUntil(s, chars, end) == KeptUntil(t, chars, end)
    decreases end
  {
    if end > 0 {
      KeptUntilSamePrefix(s, t, chars, end - 1);
    }
  }

  /** Appending a character `chars` drops leaves `TrimRight` unchanged. */
  lemma TrimRightAppendDropped(s: string, chars: Chars, c: char)
    requires Drops(chars, c)
    ensures TrimRight(s + [c], chars) == TrimRight(s, chars)
  {
    var u := s + [c];
    assert u[|s|] == c;
    forall k | 0 <= k < |s| ensures u[k] == s[k] {
    }
    KeptUntilSamePrefix(u, s, chars, |s|);
    var n := KeptUntil(s, chars, |s|);
    assert u[..n] == s[..n];
  }

  /** Python's `str.strip()` with no argument: whitespace removed from both ends. */
  function Strip(s: string): (r: string)
    ensures var a := |s| - |TrimLeft(s, Whitespace)|;
      && a + |r| <= |s|
      && r == s[a..a + |r|]
      && (forall k :: 0 <= k < a ==> IsSpace(s[k]))
      && (forall k :: a + |r| <= k < |s| ==> IsSpace(s[k]))
    ensures r == [] || (!IsSpace(r[0]) && !IsSpace(r[|r| - 1]))
  {
    var t := TrimLeft(s, Whitespace);
    var r := TrimRight(t, Whitespace);
    TrimBoth(s, Whitespace, t, r);
    r
  }

  /** Trimming a prefix and then a suffix leaves a slice with dropped characters on either side. */
  lemma TrimBoth(s: string, chars: Chars, t: string, r: string)
    requires t == TrimLeft(s, chars) && r == TrimRight(t, chars)
    ensures var a := |s| - |t|;
      && a + |r| <= |s|
      && r == s[a..a + |r|]
      && (forall k :: 0 <= k < a ==> Drops(chars, s[k]))
      && (forall k :: a + |r| <= k < |s| ==> Drops(chars, s[k]))
    ensures r == [] || (!Drops(chars, r[0]) && !Drops(chars, r[|r| - 1]))
  {
    var a := |s| - |t|;
    assert r == s[a..a + |r|];
    forall k | 0 <= k < a ensures Drops(chars, s[k]) {
      TrimLeftDropped(s, chars, k);
    }
    forall k | a + |r| <= k < |s| ensures Drops(chars, s[k]) {
      TrimBothTail(s, chars, t, r, k);
    }
    if r != [] {
      assert r[0] == t[0];
    }
  }

  lemma TrimBothTail(s: string, chars: Chars, t: string, r: string, k: int)
    requires t == TrimLeft(s, chars) && r == TrimRight(t, chars)
    requires |s| - |t| + |r| <= k < |s|
    ensures Drops(chars, s[k])
  {
    assert s[k] == t[k - (|s| - |t|)];
    TrimRightDropped(t, chars, k - (|s| - |t|));
  }

  /** Stripping twice removes nothing more than stripping once. */
  lemma StripIdempotent(s: string)
    ensures Strip(Strip(s)) == Strip(s)
  {
    var r := Strip(s);
    TrimLeftNoop(r, Whitespace);
    TrimRightNoop(r, Whitespace);
  }

  /** Nothing is removed from the left when the first character is kept. */
  lemma TrimLeftNoop(s: string, chars: Chars)
    requires s == [] || !Drops(chars, s[0])
    ensures TrimLeft(s, chars) == s
  {
    assert KeptFrom(s, chars, 0) == 0;
  }

  /** Nothing is removed from the right when the last character is kept. */
  lemma TrimRightNoop(s: string, chars: Chars)
    requires s == [] || !Drops(chars, s[|s| - 1])
    ensures TrimRight(s, chars) == s
  {
    assert KeptUntil(s, chars, |s|) == |s|;
  }

  /** The first position at or after `from` holding `c`, or `|s|`. */
  function IndexFrom(s: string, c: char, from: nat): (i: nat)
    requires from <= |s|
    ensures from <= i <= |s|
    ensures i < |s| ==> s[i] == c
    decreases |s| - from
  {
    if from == |s| then |s|
    else if s[from] == c then from
    else IndexFrom(s, c, from + 1)
  }

  /** No `c` lies between `from` and the position `IndexFrom` finds. */
  lemma {:induction false} IndexFromBefore(s: string, c: char, from: nat, k: nat)
    requires from <= k < |s| && k < IndexFrom(s, c, from)
    ensures s[k] != c
    decreases |s| - from
  {
    if from < k {
      IndexFromBefore(s, c, from + 1, k);
    }
  }

  /** Any position holding `c` with no `c` between `from` and it is the one `IndexFrom` finds. */
  lemma {:induction false} IndexFromFirst(s: string, c: char, from: nat, i: nat)
    requires from <= i < |s| && s[i] == c
    requires forall k :: from <= k < i ==> s[k] != c
    ensures IndexFrom(s, c, from) == i
    decreases i - from
  {
    if from < i {
      IndexFromFirst(s, c, from + 1, i);
    }
  }

  /** With no `c` from `from` on, `IndexFrom` runs to the end. */
  lemma {:induction false} IndexFromNone(s: string, c: char, from: nat)
    requires from <= |s|
    requires forall k :: from <= k < |s| ==> s[k] != c
    ensures IndexFrom(s, c, from) == |s|
    decreases |s| - from
  {
    if from < |s| {
      IndexFromNone(s, c, from + 1);
    }
  }

  /** Position of the first `c` in `s`, or `|s|` when there is none (Python's `find` would answer -1). */
  function IndexOf(s: string, c: char): (i: nat)
    ensures i <= |s|
    ensures i < |s| ==> s[i] == c
  {
    IndexFrom(s, c, 0)
  }

  /** `IndexOf` finds a position exactly when `c` occurs in `s`, and no `c` comes before it. */
  lemma IndexOfFound(s: string, c: char)
    ensures IndexOf(s, c) < |s| <==> c in s
    ensures c !in s[..IndexOf(s, c)]
  {
    var i := IndexOf(s, c);
    forall k | 0 <= k < i ensures s[..i][k] != c {
      IndexFromBefore(s, c, 0, k);
    }
    if i == |s| {
      assert s[..i] == s;
    }
  }

  /** Python's `s.rfind(c)` restricted to `s[..end]`: the last position of `c` before `end`, or -1. */
  function RFindBefore(s: string, c: char, end: nat): (i: int)
    requires end <= |s|
    ensures -1 <= i < end
    ensures 0 <= i ==> s[i] == c
    decreases end
  {
    if end == 0 then -1
    else if s[end - 1] == c then end - 1
    else RFindBefore(s, c, end - 1)
  }

  /** No `c` lies between the position `RFindBefore` finds and `end`. */
  lemma {:induction false} RFindBeforeAfter(s: string, c: char, end: nat, k: int)
    requires end <= |s| && RFindBefore(s, c, end) < k < end
    ensures s[k] != c
    decreases end
  {
    if k < end - 1 {
      RFindBeforeAfter(s, c, end - 1, k);
    }
  }

  /** `RFindBefore` finds every `c` before `end` or a later one. */
  lemma {:induction false} RFindBeforeAtLeast(s: string, c: char, end: nat, k: nat)
    requires k < end <= |s| && s[k] == c
    ensures k <= RFindBefore(s, c, end)
    decreases end
  {
    if k < end - 1 && s[end - 1] != c {
      RFindBeforeAtLeast(s, c, end - 1, k);
    }
  }

  /** Without a `c` in `s[from..end]`, searching back from `end` finds what searching back from `from` finds. */
  lemma {:induction false} RFindBeforeSkip(s: string, c: char, from: nat, end: nat)
    requires from <= end <= |s|
    requires forall k :: from <= k < end ==> s[k] != c
    ensures RFindBefore(s, c, end) == RFindBefore(s, c, from)
    decreases end
  {
    if from < end {
      RFindBeforeSkip(s, c, from, end - 1);
    }
  }

  /** Searching back from `end` looks only at the first `end` characters. */
  lemma {:induction false} RFindBeforeSamePrefix(s: string, t: string, c: char, end: nat)
    requires end <= |s| && end <= |t|
    requires forall k :: 0 <= k < end ==> s[k] == t[k]
    ensures RFindBefore(s, c, end) == RFindBefore(t, c, end)
    decreases end
  {
    if end > 0 && s[end - 1] != c {
      RFindBeforeSamePrefix(s, t, c, end - 1);
    }
  }

  /** Python's `s.rfind(c)` for one character: the last position of `c`, or -1. */
  function RFind(s: string, c: char): (i: int)
    ensures -1 <= i < |s|
    ensures 0 <= i ==> s[i] == c
    ensures forall k :: i < k < |s| ==> s[k] != c
  {
    forall k | RFindBefore(s, c, |s|) < k < |s| ensures s[k] != c {
      RFindBeforeAfter(s, c, |s|, k);
    }
    RFindBefore(s, c, |s|)
  }

  /** A `c` with no `c` after it is the one `RFind` finds. */
  lemma RFindAt(s: string, c: char, j: int)
    requires 0 <= j < |s| && s[j] == c
    requires forall k :: j < k < |s| ==> s[k] != c
    ensures RFind(s, c) == j
  {
    RFindBeforeAtLeast(s, c, |s|, j);
  }

  /** `RFind` answers -1 exactly when `c` does not occur in `s`. */
  lemma RFindFound(s: string, c: char)
    ensures RFind(s, c) == -1 <==> c !in s
  {
    if c in s {
      var k :| 0 <= k < |s| && s[k] == c;
      RFindBeforeAtLeast(s, c, |s|, k);
    }
  }

  /**
   * The text after the last `c`, or all of `s` when `c` does not occur:
   * `s[s.rfind(c) + 1:]`, which is also `s.split(c)[-1]` (see `LastPieceIsAfterLast`).
   */
  function AfterLast(s: string, c: char): (r: string)
    ensures |r| <= |s| && r == s[|s| - |r|..]
    ensures c !in r
    ensures |r| == |s| || s[|s| - |r| - 1] == c
  {
    AfterRFindFree(s, c);
    s[RFind(s, c) + 1..]
  }

  /** No `c` follows the last `c`. */
  lemma AfterRFindFree(s: string, c: char)
    ensures c !in s[RFind(s, c) + 1..]
  {
    var i := RFind(s, c);
    forall k | i + 1 <= k < |s| ensures s[k] != c {
      RFindBeforeAfter(s, c, |s|, k);
    }
  }

  /**
   * Python's `sep.join(parts)`: with two or more pieces, a separator
   * follows the first.
   */
  function Join(parts: seq<string>, sep: char): (r: string)
    ensures |parts| >= 2 ==> |parts[0]| < |r| && r[|parts[0]|] == sep
  {
    if |parts| == 0 then ""
    else if |parts| == 1 then parts[0]
    else
      var rest := Join(parts[1..], sep);
      parts[0] + [sep] + rest
  }

  /** Joining a first piece onto further pieces puts one separator between them. */
  lemma JoinCons(head: string, tail: seq<string>, sep: char)
    requires |tail| >= 1
    ensures Join([head] + tail, sep) == head + [sep] + Join(tail, sep)
  {
    assert ([head] + tail)[1..] == tail;
  }

  /** The pieces of `s[from..]` between occurrences of `sep`, in order; always at least one. */
  function SplitFrom(s: string, sep: char, from: nat): (parts: seq<string>)
    requires from <= |s|
    ensures |parts| >= 1
    decreases |s| - from
  {
    var i := IndexFrom(s, sep, from);
    if i == |s| then [s[from..]]
    else [s[from..i]] + SplitFrom(s, sep, i + 1)
  }

  /**
   * Python's `s.split(sep)` for a one-character separator (`"".split("/") == [""]`):
   * there is more than one piece exactly when the separator occurs.
   */
  function Split(s: string, sep: char): (parts: seq<string>)
    ensures |parts| >= 1
    ensures |parts| == 1 <==> sep !in s
  {
    SplitFromPieces(s, sep, 0);
    assert s[0..] == s;
    SplitFrom(s, sep, 0)
  }

  /** No piece of a split holds the separator. */
  lemma SplitPieces(s: string, sep: char)
    ensures forall j :: 0 <= j < |Split(s, sep)| ==> sep !in Split(s, sep)[j]
  {
    SplitFromPieces(s, sep, 0);
    assert s[0..] == s;
  }

  /**
   * One step of `SplitFrom`: `s[from..]` is the piece up to the next
   * separator, the separator, and the rest, and the pieces are that piece
   * followed by the pieces of the rest.
   */
  lemma SplitFromStep(s: string, sep: char, from: nat)
    requires from <= |s| && IndexFrom(s, sep, from) < |s|
    ensures var i := IndexFrom(s, sep, from);
      && s[from..] == s[from..i] + [sep] + s[i + 1..]
      && SplitFrom(s, sep, from) == [s[from..i]] + SplitFrom(s, sep, i + 1)
  {
  }

  /** With no separator from `from` on, `s[from..]` is the only piece. */
  lemma SplitFromNone(s: string, sep: char, from: nat)
    requires from <= |s| && IndexFrom(s, sep, from) == |s|
    ensures SplitFrom(s, sep, from) == [s[from..]]
    ensures Join(SplitFrom(s, sep, from), sep) == s[from..]
  {
  }

  /** Joining the pieces of `s[from..]` puts `sep` back between the first piece and the rest. */
  lemma JoinSplitFromStep(s: string, sep: char, from: nat)
    requires from <= |s| && IndexFrom(s, sep, from) < |s|
    ensures var i := IndexFrom(s, sep, from);
      Join(SplitFrom(s, sep, i + 1), sep) == s[i + 1..] ==> Join(SplitFrom(s, sep, from), sep) == s[from..]
  {
    var i := IndexFrom(s, sep, from);
    var tail := SplitFrom(s, sep, i + 1);
    SplitFromStep(s, sep, from);
    JoinCons(s[from..i], tail, sep);
  }

  /** Joining the pieces of `s[from..]` with `sep` gives `s[from..]` back. */
  lemma {:induction false} JoinSplitFrom(s: string, sep: char, from: nat)
    requires from <= |s|
    ensures Join(SplitFrom(s, sep, from), sep) == s[from..]
    decreases |s| - from
  {
    var i := IndexFrom(s, sep, from);
    if i < |s| {
      JoinSplitFrom(s, sep, i + 1);
      JoinSplitFromStep(s, sep, from);
    } else {
      SplitFromNone(s, sep, from);
    }
  }

  /** Joining the pieces of a split gives back the string. */
  lemma JoinSplit(s: string, sep: char)
    ensures Join(Split(s, sep), sep) == s
  {
    JoinSplitFrom(s, sep, 0);
  }

  /** No piece of `s[from..]` holds the separator; there is one piece exactly when no separator follows `from`. */
  lemma {:induction false} SplitFromPieces(s: string, sep: char, from: nat)
    requires from <= |s|
    ensures forall j :: 0 <= j < |SplitFrom(s, sep, from)| ==> sep !in SplitFrom(s, sep, from)[j]
    ensures |SplitFrom(s, sep, from)| == 1 <==> sep !in s[from..]
    decreases |s| - from
  {
    var i := IndexFrom(s, sep, from);
    forall k | from <= k < i ensures s[k] != sep {
      IndexFromBefore(s, sep, from, k);
    }
    assert sep !in s[from..i];
    if i < |s| {
      SplitFromPieces(s, sep, i + 1);
      assert s[from..][i - from] == sep;
    }
  }

  /** Joining two or more pieces puts `sep` between the first and the join of the rest. */
  lemma JoinFirst(parts: seq<string>, sep: char)
    requires |parts| >= 2
    ensures Join(parts, sep) == parts[0] + [sep] + Join(parts[1..], sep)
  {
  }

  /** When `s[from..]` is `p`, `sep`, `rest` with no `sep` in `p`, the first separator from `from` is the one after `p`. */
  lemma FirstSeparator(s: string, sep: char, from: nat, p: string, rest: string)
    requires from <= |s| && s[from..] == p + [sep] + rest && sep !in p
    ensures IndexFrom(s, sep, from) == from + |p|
    ensures s[from..from + |p|] == p && s[from + |p| + 1..] == rest
  {
    var i := from + |p|;
    forall k | from <= k < i ensures s[k] != sep {
      assert s[k] == s[from..][k - from] == p[k - from];
    }
    assert s[i] == s[from..][|p|];
    IndexFromFirst(s, sep, from, i);
    assert s[from..i] == s[from..][..|p|];
    assert s[i + 1..] == s[from..][|p| + 1..];
  }

  /** When `s[from..]` holds no `sep`, no separator follows `from`. */
  lemma NoSeparator(s: string, sep: char, from: nat)
    requires from <= |s| && sep !in s[from..]
    ensures IndexFrom(s, sep, from) == |s|
  {
    forall k | from <= k < |s| ensures s[k] != sep {
      assert s[k] == s[from..][k - from];
    }
    IndexFromNone(s, sep, from);
  }

  /** Joining puts the rest of the pieces one separator after the first piece. */
  lemma JoinRest(s: string, sep: char, from: nat, parts: seq<string>)
    requires from <= |s| && |parts| >= 2 && sep !in parts[0]
    requires s[from..] == Join(parts, sep)
    ensures from + |parts[0]| + 1 <= |s|
    ensures IndexFrom(s, sep, from) == from + |parts[0]|
    ensures s[from..from + |parts[0]|] == parts[0]
    ensures s[from + |parts[0]| + 1..] == Join(parts[1..], sep)
  {
    JoinFirst(parts, sep);
    FirstSeparator(s, sep, from, parts[0], Join(parts[1..], sep));
  }

  /** One step of splitting a join: the first piece comes off, and the rest of the split is the split of the rest. */
  lemma SplitJoinStep(s: string, sep: char, from: nat, parts: seq<string>)
    requires from <= |s| && |parts| >= 2 && sep !in parts[0]
    requires s[from..] == Join(parts, sep)
    ensures from + |parts[0]| + 1 <= |s|
    ensures s[from + |parts[0]| + 1..] == Join(parts[1..], sep)
    ensures SplitFrom(s, sep, from + |parts[0]| + 1) == parts[1..] ==> SplitFrom(s, sep, from) == parts
  {
    JoinRest(s, sep, from, parts);
    SplitFromStep(s, sep, from);
    assert parts == [parts[0]] + parts[1..];
  }

  /** Splitting `s[from..]` undoes the join that produced it, when no piece contains the separator. */
  lemma {:induction false} SplitJoinFrom(s: string, sep: char, from: nat, parts: seq<string>)
    requires from <= |s| && |parts| >= 1
    requires forall j :: 0 <= j < |parts| ==> sep !in parts[j]
    requires s[from..] == Join(parts, sep)
    ensures SplitFrom(s, sep, from) == parts
    decreases |parts|
  {
    if |parts| == 1 {
      NoSeparator(s, sep, from);
      SplitFromNone(s, sep, from);
      assert parts == [parts[0]];
      assert SplitFrom(s, sep, from) == [parts[0]];
    } else {
      SplitJoinStep(s, sep, from, parts);
      SplitJoinFrom(s, sep, from + |parts[0]| + 1, parts[1..]);
    }
  }

  /** Splitting undoes joining, when no piece contains the separator. */
  lemma SplitJoin(parts: seq<string>, sep: char)
    requires |parts| >= 1
    requires forall j :: 0 <= j < |parts| ==> sep !in parts[j]
    ensures Split(Join(parts, sep), sep) == parts
  {
    var s := Join(parts, sep);
    assert s[0..] == s;
    SplitJoinFrom(s, sep, 0, parts);
  }

  /** What `sep.join(s.split(sep)[1:])` computes when `sep` occurs: everything after the first separator. */
  lemma JoinSplitTail(s: string, sep: char)
    requires IndexOf(s, sep) < |s|
    ensures Join(Split(s, sep)[1..], sep) == s[IndexOf(s, sep) + 1..]
  {
    var i := IndexOf(s, sep);
    assert Split(s, sep)[1..] == SplitFrom(s, sep, i + 1);
    JoinSplitFrom(s, sep, i + 1);
  }

  /** Taking one step of `SplitFrom` keeps the last piece. */
  lemma SplitFromLastStep(s: string, sep: char, from: nat)
    requires from <= |s| && IndexFrom(s, sep, from) < |s|
    ensures Last(SplitFrom(s, sep, from)) == Last(SplitFrom(s, sep, IndexFrom(s, sep, from) + 1))
  {
    SplitFromStep(s, sep, from);
  }

  /** Where the last piece of `s[from..]` starts: after the last separator, or at `from` when none follows it. */
  function LastStart(s: string, sep: char, from: nat): (p: nat)
    requires from <= |s|
    ensures from <= p <= |s|
    decreases |s| - from
  {
    var i := IndexFrom(s, sep, from);
    if i == |s| then from else LastStart(s, sep, i + 1)
  }

  /** The last piece of `s[from..]` is the suffix from `LastStart` on. */
  lemma {:induction false} LastPieceFrom(s: string, sep: char, from: nat)
    requires from <= |s|
    ensures Last(SplitFrom(s, sep, from)) == s[LastStart(s, sep, from)..]
    decreases |s| - from
  {
    var i := IndexFrom(s, sep, from);
    if i < |s| {
      LastPieceFrom(s, sep, i + 1);
      SplitFromLastStep(s, sep, from);
    }
  }

  /** `LastStart` is one past the last separator, unless that lies before `from`. */
  lemma {:induction false} LastStartIsAfterLast(s: string, sep: char, from: nat)
    requires from <= |s|
    ensures LastStart(s, sep, from) == if from < RFind(s, sep) + 1 then RFind(s, sep) + 1 else from
    decreases |s| - from
  {
    var i := IndexFrom(s, sep, from);
    if i == |s| {
      forall k | from <= k < |s| ensures s[k] != sep {
        IndexFromBefore(s, sep, from, k);
      }
      RFindBeforeSkip(s, sep, from, |s|);
    } else {
      LastStartIsAfterLast(s, sep, i + 1);
      RFindBeforeAtLeast(s, sep, |s|, i);
    }
  }

  /** Python's `s.split(sep)[-1]` is the text after the last separator. */
  lemma LastPieceIsAfterLast(s: string, sep: char)
    ensures Last(Split(s, sep)) == AfterLast(s, sep)
  {
    LastPieceFrom(s, sep, 0);
    LastStartIsAfterLast(s, sep, 0);
  }

  /** `needle` occurs in `hay` starting at position `i`. */
  predicate OccursAt(hay: string, needle: string, i: nat) {
    i + |needle| <= |hay| && hay[i..i + |needle|] == needle
  }

  /** `needle` occurs in `hay` at `from` or later. */
  predicate ContainsFrom(hay: string, needle: string, from: nat)
    decreases |hay| - from
  {
    from + |needle| <= |hay| && (OccursAt(hay, needle, from) || ContainsFrom(hay, needle, from + 1))
  }

  /**
   * Python's `needle in hay` for strings: a case-sensitive substring test,
   * true exactly when `needle` occurs at some position of `hay`.
   */
  predicate Contains(hay: string, needle: string): (b: bool)
    ensures b <==> exists i: nat :: OccursAt(hay, needle, i)
  {
    ContainsFromIff(hay, needle, 0);
    ContainsFrom(hay, needle, 0)
  }

  /** `ContainsFrom` holds exactly when `needle` occurs at some position from `from` on. */
  lemma {:induction false} ContainsFromIff(hay: string, needle: string, from: nat)
    ensures ContainsFrom(hay, needle, from) <==> exists i: nat :: from <= i && OccursAt(hay, needle, i)
    decreases |hay| - from
  {
    if from + |needle| <= |hay| {
      ContainsFromIff(hay, needle, from + 1);
      if exists i: nat :: from <= i && OccursAt(hay, needle, i) {
        var i: nat :| from <= i && OccursAt(hay, needle, i);
        assert i == from || (from + 1 <= i && OccursAt(hay, needle, i));
      }
    } else {
      forall i: nat | from <= i ensures !OccursAt(hay, needle, i) {
      }
    }
  }
}
