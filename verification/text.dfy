/**
  String helpers with JavaScript semantics: `String.prototype.split` on a
  single-character separator, its inverse (`Array.prototype.join`), and the
  prefix/suffix tests the watcher needs. Strings are `seq<char>`.
 */
module Text {

  /** `s.startsWith(p)` */
  predicate StartsWith(s: string, p: string) {
    |p| <= |s| && s[..|p|] == p
  }

  /** `s.endsWith(p)` */
  predicate EndsWith(s: string, p: string) {
    |p| <= |s| && s[|s| - |p|..] == p
  }

  /** `s.indexOf(c)`, with `|s|` in place of -1 when `c` does not occur. */
  function FirstIndex(s: string, c: char): (i: nat)
    ensures i <= |s|
    ensures i < |s| ==> s[i] == c
    ensures forall k | 0 <= k < i :: s[k] != c
  {
    if |s| == 0 || s[0] == c then 0 else 1 + FirstIndex(s[1..], c)
  }

  /**
    `s.split(c)` for a one-character separator: the pieces between
    separators, in order, empty pieces included; an empty string splits
    into one empty piece.
   */
  function Split(s: string, c: char): (r: seq<string>)
    ensures |r| >= 1
    decreases |s|
  {
    var i := FirstIndex(s, c);
    if i == |s| then [s] else [s[..i]] + Split(s[i + 1..], c)
  }

  /** There is one more piece than separators, and no piece holds a separator. */
  lemma SplitPieces(s: string, c: char)
    ensures |Split(s, c)| == multiset(s)[c] + 1
    ensures forall k | 0 <= k < |Split(s, c)| :: c !in Split(s, c)[k]
  {
    SplitCount(s, c);
    SplitPiecesFree(s, c);
  }

  /** Nothing before the first separator is a separator. */
  lemma BeforeFirst(s: string, c: char)
    ensures c !in s[..FirstIndex(s, c)]
  {
    var i := FirstIndex(s, c);
    forall k | 0 <= k < i
      ensures s[..i][k] != c
    {
    }
  }

  lemma {:induction false} SplitCount(s: string, c: char)
    ensures |Split(s, c)| == multiset(s)[c] + 1
    decreases |s|
  {
    var i := FirstIndex(s, c);
    BeforeFirst(s, c);
    if i < |s| {
      SplitCount(s[i + 1..], c);
      assert s == s[..i] + [c] + s[i + 1..];
    } else {
      assert s[..i] == s;
    }
  }

  lemma {:induction false} SplitPiecesFree(s: string, c: char)
    ensures forall k | 0 <= k < |Split(s, c)| :: c !in Split(s, c)[k]
    decreases |s|
  {
    var i := FirstIndex(s, c);
    BeforeFirst(s, c);
    if i < |s| {
      SplitPiecesFree(s[i + 1..], c);
      var r := Split(s, c);
      assert r[1..] == Split(s[i + 1..], c);
      forall k | 1 <= k < |r|
        ensures c !in r[k]
      {
        assert r[k] == r[1..][k - 1];
      }
    } else {
      assert s[..i] == s;
    }
  }

  /** `pieces.join(c)`; the inverse of `Split`. */
  function Join(pieces: seq<string>, c: char): string
    requires |pieces| >= 1
  {
    if |pieces| == 1 then pieces[0] else pieces[0] + [c] + Join(pieces[1..], c)
  }

  /** Joining the pieces of a split gives back the original string. */
  lemma {:induction false} JoinSplit(s: string, c: char)
    ensures Join(Split(s, c), c) == s
    decreases |s|
  {
    var i := FirstIndex(s, c);
    if i < |s| {
      var rest := Split(s[i + 1..], c);
      JoinSplit(s[i + 1..], c);
      assert ([s[..i]] + rest)[1..] == rest;
      assert s == s[..i] + [c] + s[i + 1..];
    }
  }

  /** A string without the separator splits into itself alone. */
  lemma SplitWithoutSeparator(s: string, c: char)
    requires c !in s
    ensures Split(s, c) == [s]
  {
  }

  /** Splitting at the first separator, wherever it is found. */
  lemma SplitAtFirst(s: string, c: char, i: nat)
    requires i < |s| && s[i] == c
    requires forall k | 0 <= k < i :: s[k] != c
    ensures Split(s, c) == [s[..i]] + Split(s[i + 1..], c)
  {
    assert FirstIndex(s, c) == i;
  }

  /** Splitting at any separator: the pieces before it, then the pieces after it. */
  lemma {:induction false} SplitAt(s: string, c: char, k: nat)
    requires k < |s| && s[k] == c
    ensures Split(s, c) == Split(s[..k], c) + Split(s[k + 1..], c)
    decreases |s|, 1
  {
    var j := FirstIndex(s, c);
    if j == k {
      SplitAtFirst(s, c, k);
      BeforeFirst(s, c);
      SplitWithoutSeparator(s[..k], c);
    } else {
      SplitAtLater(s, c, k, j);
    }
  }

  /** `SplitAt` when an earlier separator at `j` comes first: split there, then recurse on the rest. */
  lemma {:induction false} SplitAtLater(s: string, c: char, k: nat, j: nat)
    requires k < |s| && s[k] == c
    requires j < k && s[j] == c
    requires forall i | 0 <= i < j :: s[i] != c
    ensures Split(s, c) == Split(s[..k], c) + Split(s[k + 1..], c)
    decreases |s|, 0
  {
    var pre := s[..k];
    var t := s[j + 1..];
    var before := Split(pre[j + 1..], c);
    var after := Split(s[k + 1..], c);
    assert Split(t, c) == before + after by {
      SplitAt(t, c, k - j - 1);
      assert t[..k - j - 1] == pre[j + 1..];
      assert t[k - j..] == s[k + 1..];
    }
    assert Split(pre, c) == [s[..j]] + before by {
      assert pre[..j] == s[..j];
      SplitAtFirst(pre, c, j);
    }
    SplitAtFirst(s, c, j);
    Regroup(Split(s, c), Split(pre, c), Split(t, c), s[..j], before, after);
  }

  lemma Regroup(whole: seq<string>, front: seq<string>, rest: seq<string>, first: string, middle: seq<string>, last: seq<string>)
    requires whole == [first] + rest && rest == middle + last && front == [first] + middle
    ensures whole == front + last
  {
  }

  /** Splitting distributes over a separator occurrence. */
  lemma SplitAtSeparator(a: string, b: string, c: char)
    ensures Split(a + [c] + b, c) == Split(a, c) + Split(b, c)
  {
    var s := a + [c] + b;
    SplitAt(s, c, |a|);
    assert s[..|a|] == a && s[|a| + 1..] == b;
  }

  /**
    Splitting a join of separator-free pieces gives back the pieces: `Split`
    and `Join` are mutually inverse.
   */
  lemma {:induction false} SplitJoin(pieces: seq<string>, c: char)
    requires |pieces| >= 1
    requires forall i | 0 <= i < |pieces| :: c !in pieces[i]
    ensures Split(Join(pieces, c), c) == pieces
    decreases |pieces|
  {
    if |pieces| == 1 {
      SplitWithoutSeparator(pieces[0], c);
    } else {
      var rest := Join(pieces[1..], c);
      assert Join(pieces, c) == pieces[0] + [c] + rest;
      SplitJoin(pieces[1..], c);
      SplitAtSeparator(pieces[0], rest, c);
      SplitWithoutSeparator(pieces[0], c);
      assert pieces == [pieces[0]] + pieces[1..];
    }
  }
}
