/**
 * The JavaScript string built-ins the component relies on, for a
 * one-character argument: `indexOf`, `lastIndexOf`, `split`, and
 * `Array.prototype.join` as the inverse of `split`.
 */
module JsString {
  import opened Wrappers

  /** `s.indexOf(c)`: the position of the first `c`, None where JavaScript gives -1. */
  function IndexOf(s: string, c: char): (r: Option<nat>)
    ensures r.None? <==> c !in s
    ensures r.Some? ==> r.value < |s| && s[r.value] == c && c !in s[..r.value]
  {
    if s == [] then None
    else if s[0] == c then Some(0)
    else
      match IndexOf(s[1..], c)
      case None => None
      case Some(i) =>
        assert s[..i + 1] == [s[0]] + s[1..][..i];
        Some(i + 1)
  }

  /** `s.lastIndexOf(c)`: the position of the last `c`, None where JavaScript gives -1. */
  function LastIndexOf(s: string, c: char): (r: Option<nat>)
    ensures r.None? <==> c !in s
    ensures r.Some? ==> r.value < |s| && s[r.value] == c && forall j :: r.value < j < |s| ==> s[j] != c
  {
    if s == [] then None
    else if s[|s| - 1] == c then Some(|s| - 1)
    else
      LastIndexOf(s[..|s| - 1], c)
  }

  /** The first occurrence is determined by its two defining facts. */
  lemma IndexOfIs(s: string, c: char, i: nat)
    requires i < |s| && s[i] == c && c !in s[..i]
    ensures IndexOf(s, c) == Some(i)
  {
  }

  /** The last occurrence is determined by its two defining facts. */
  lemma LastIndexOfIs(s: string, c: char, i: nat)
    requires i < |s| && s[i] == c && forall j :: i < j < |s| ==> s[j] != c
    ensures LastIndexOf(s, c) == Some(i)
  {
  }

  /** `parts.join(c)`. */
  function Join(parts: seq<string>, c: char): string
  {
    if parts == [] then []
    else if |parts| == 1 then parts[0]
    else parts[0] + [c] + Join(parts[1..], c)
  }

  /** No piece of `parts` contains `c`. */
  predicate NoPieceHolds(parts: seq<string>, c: char)
  {
    forall k :: 0 <= k < |parts| ==> c !in parts[k]
  }

  /**
   * `s.split(c)`: the pieces between the occurrences of `c`; there is always
   * at least one piece.
   */
  function Split(s: string, c: char): (parts: seq<string>)
    ensures |parts| >= 1
    decreases |s|
  {
    match IndexOf(s, c)
    case None => [s]
    case Some(i) =>
      [s[..i]] + Split(s[i + 1..], c)
  }

  /** No piece of `s.split(c)` holds `c`. */
  lemma {:induction false} SplitPiecesFree(s: string, c: char)
    ensures NoPieceHolds(Split(s, c), c)
    decreases |s|
  {
    match IndexOf(s, c)
    case None =>
    case Some(i) =>
      SplitPiecesFree(s[i + 1..], c);
  }

  /** Joining the pieces of `s.split(c)` with `c` gives `s` back. */
  lemma {:induction false} JoinSplit(s: string, c: char)
    ensures Join(Split(s, c), c) == s
    decreases |s|
  {
    match IndexOf(s, c)
    case None =>
    case Some(i) =>
      var rest := Split(s[i + 1..], c);
      assert Split(s, c) == [s[..i]] + rest;
      JoinCons(s[..i], rest, c);
      JoinSplit(s[i + 1..], c);
      assert s == s[..i] + [c] + s[i + 1..] by {
        assert s[i] == c;
      }
  }

  /** Joining a piece in front of at least one more adds the piece and a separator. */
  lemma JoinCons(x: string, rest: seq<string>, c: char)
    requires |rest| >= 1
    ensures Join([x] + rest, c) == x + [c] + Join(rest, c)
  {
    assert ([x] + rest)[1..] == rest;
  }

  /** A character absent from `s` is absent from every piece of `s.split(c)`. */
  lemma {:induction false} SplitPiecesWithin(s: string, c: char, d: char)
    requires d !in s
    ensures NoPieceHolds(Split(s, c), d)
    decreases |s|
  {
    match IndexOf(s, c)
    case None =>
      assert Split(s, c) == [s];
    case Some(i) =>
      var rest := Split(s[i + 1..], c);
      assert Split(s, c) == [s[..i]] + rest;
      assert d !in s[..i] && d !in s[i + 1..] by {
        assert s == s[..i] + [s[i]] + s[i + 1..];
      }
      SplitPiecesWithin(s[i + 1..], c, d);
      NoPieceHoldsCons(s[..i], rest, d);
  }

  /** Prepending a piece free of `d` keeps every piece free of `d`. */
  lemma NoPieceHoldsCons(x: string, rest: seq<string>, d: char)
    requires d !in x && NoPieceHolds(rest, d)
    ensures NoPieceHolds([x] + rest, d)
  {
    forall k | 0 <= k < |[x] + rest|
      ensures d !in ([x] + rest)[k]
    {
      if k > 0 {
        assert ([x] + rest)[k] == rest[k - 1];
      }
    }
  }

  /** `xs[xs.length - 1]`. */
  function Last<T>(xs: seq<T>): T
    requires |xs| >= 1
  {
    xs[|xs| - 1]
  }

  /** The index `indexOf` finds, for a separator known to occur. */
  lemma FirstOccurrence(s: string, c: char) returns (i: nat)
    requires c in s
    ensures i < |s| && s[i] == c && c !in s[..i]
  {
    i := IndexOf(s, c).value;
  }

  /** A string without the separator splits into itself alone. */
  lemma SplitNone(s: string, c: char)
    requires c !in s
    ensures Split(s, c) == [s]
  {
  }

  /** `s.split(c)` cuts at the first occurrence of `c`. */
  lemma SplitAtFirst(s: string, c: char, i: nat)
    requires i < |s| && s[i] == c && c !in s[..i]
    ensures Split(s, c) == [s[..i]] + Split(s[i + 1..], c)
  {
    IndexOfIs(s, c, i);
  }

  /** Splitting around one occurrence of the separator splits both sides independently. */
  lemma {:induction false} SplitConcat(a: string, b: string, c: char)
    ensures Split(a + [c] + b, c) == Split(a, c) + Split(b, c)
    decreases |a|
  {
    if c !in a {
      SplitConcatFree(a, b, c);
    } else {
      var i := FirstOccurrence(a, c);
      SplitConcatStep(a, b, c, i);
      SplitConcat(a[i + 1..], b, c);
      PiecesAssoc([a[..i]], Split(a[i + 1..], c), Split(b, c));
    }
  }

  /** Regrouping a concatenation of piece lists. */
  lemma PiecesAssoc(x: seq<string>, p: seq<string>, q: seq<string>)
    ensures x + (p + q) == x + p + q
  {
  }

  /** `SplitConcat` when the left part holds no separator. */
  lemma SplitConcatFree(a: string, b: string, c: char)
    requires c !in a
    ensures Split(a + [c] + b, c) == [a] + Split(b, c)
  {
    var s := a + [c] + b;
    assert s[..|a|] == a;
    assert s[|a| + 1..] == b;
    SplitAtFirst(s, c, |a|);
  }

  /** One cut of `SplitConcat`: both strings lose the same first piece. */
  lemma SplitConcatStep(a: string, b: string, c: char, i: nat)
    requires i < |a| && a[i] == c && c !in a[..i]
    ensures Split(a + [c] + b, c) == [a[..i]] + Split(a[i + 1..] + [c] + b, c)
    ensures Split(a, c) == [a[..i]] + Split(a[i + 1..], c)
  {
    var s := a + [c] + b;
    assert s[..i] == a[..i];
    assert s[i + 1..] == a[i + 1..] + [c] + b;
    SplitAtFirst(s, c, i);
    SplitAtFirst(a, c, i);
  }

  /** `join` followed by `split` gives the pieces back when no piece holds the separator. */
  lemma {:induction false} SplitJoin(parts: seq<string>, c: char)
    requires |parts| >= 1
    requires NoPieceHolds(parts, c)
    ensures Split(Join(parts, c), c) == parts
  {
    if |parts| == 1 {
      assert IndexOf(parts[0], c) == None;
    } else {
      SplitJoin(parts[1..], c);
      SplitConcat(parts[0], Join(parts[1..], c), c);
      assert IndexOf(parts[0], c) == None;
      assert [parts[0]] + parts[1..] == parts;
    }
  }

  /** Joining one more piece appends the separator and that piece. */
  lemma {:induction false} JoinAppend(parts: seq<string>, x: string, c: char)
    requires |parts| >= 1
    ensures Join(parts + [x], c) == Join(parts, c) + [c] + x
  {
    if |parts| > 1 {
      assert (parts + [x])[1..] == parts[1..] + [x];
      JoinAppend(parts[1..], x, c);
    }
  }

  /**
   * The last piece of `s.split(c)` is the longest suffix of `s` free of `c`:
   * it is all of `s`, or the character before it is `c`.
   */
  lemma {:induction false} SplitLast(s: string, c: char)
    ensures var l := Last(Split(s, c));
      && |l| <= |s| && l == s[|s| - |l|..]
      && (|l| == |s| || s[|s| - |l| - 1] == c)
    decreases |s|
  {
    match IndexOf(s, c)
    case None =>
      assert Split(s, c) == [s];
    case Some(i) =>
      var t := s[i + 1..];
      var rest := Split(t, c);
      assert Split(s, c) == [s[..i]] + rest;
      var l := Last(rest);
      assert Last(Split(s, c)) == l;
      SplitLast(t, c);
      assert t[|t| - |l|..] == s[|s| - |l|..];
      if |l| < |t| {
        assert t[|t| - |l| - 1] == s[|s| - |l| - 1];
      }
  }
}
