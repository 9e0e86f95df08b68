/**
  The recursive directory walk (`walk`): lists a directory, and for each entry
  in listing order either descends into it (when `stat` reports a directory)
  or reports its path. An entry whose `stat` fails is reported like a file.
 */
module Walk {
  import opened Text

  /** What `fs.stat` says about a listed entry. */
  datatype Kind =
    | Regular                            // stat succeeded, not a directory
    | StatFailed                         // stat returned an error
    | Directory(listing: seq<Entry>)     // a directory and what `readdir` lists in it

  /** One name in a directory listing. */
  datatype Entry = Entry(name: string, kind: Kind)

  /** `dir + '/' + name` */
  function ChildPath(dir: string, name: string): (p: string)
    ensures StartsWith(p, dir + "/")
  {
    dir + "/" + name
  }

  /**
    The paths `walk(dir)` delivers for a directory whose listing is
    `listing`: depth first, in listing order, every non-directory entry.
   */
  function WalkListing(dir: string, listing: seq<Entry>): (paths: seq<string>)
    ensures |paths| == Leaves(listing)
    ensures forall i | 0 <= i < |paths| :: StartsWith(paths[i], dir + "/")
    decreases listing
  {
    if |listing| == 0 then []
    else
      var e := listing[0];
      var path := ChildPath(dir, e.name);
      var here := match e.kind
        case Directory(children) => WalkListing(path, children)
        case _ => [path];
      assert forall i | 0 <= i < |here| :: StartsWith(here[i], dir + "/") by {
        if e.kind.Directory? {
          assert (path + "/")[..|dir + "/"|] == dir + "/";
          forall i | 0 <= i < |here|
            ensures StartsWith(here[i], dir + "/")
          {
            PrefixTransitive(dir + "/", path + "/", here[i]);
          }
        }
      }
      var rest := WalkListing(dir, listing[1..]);
      here + rest
  }

  /** Number of non-directory entries in a tree. */
  function Leaves(listing: seq<Entry>): nat
    decreases listing
  {
    if |listing| == 0 then 0
    else
      (match listing[0].kind
       case Directory(children) => Leaves(children)
       case _ => 1)
      + Leaves(listing[1..])
  }

  lemma PrefixTransitive(a: string, b: string, s: string)
    requires StartsWith(b, a) && StartsWith(s, b)
    ensures StartsWith(s, a)
  {
    assert s[..|a|] == b[..|a|];
  }

  /** The walk follows the listing order: a split listing walks as the two halves in turn. */
  lemma {:induction false} WalkListingAppend(dir: string, xs: seq<Entry>, ys: seq<Entry>)
    ensures WalkListing(dir, xs + ys) == WalkListing(dir, xs) + WalkListing(dir, ys)
    decreases |xs|
  {
    if |xs| == 0 {
      assert xs + ys == ys;
    } else {
      assert (xs + ys)[0] == xs[0];
      assert (xs + ys)[1..] == xs[1..] + ys;
      WalkListingAppend(dir, xs[1..], ys);
    }
  }

  /**
    Reference description of the walk's contents, independent of order: `p`
    is delivered when some listed entry is not a directory and has path `p`,
    or is a directory whose own walk delivers `p`.
   */
  ghost predicate Delivers(dir: string, listing: seq<Entry>, p: string)
    decreases listing
  {
    exists i | 0 <= i < |listing| :: EntryDelivers(ChildPath(dir, listing[i].name), listing[i], p)
  }

  ghost predicate EntryDelivers(path: string, e: Entry, p: string)
    decreases e
  {
    match e.kind
    case Directory(children) => Delivers(path, children, p)
    case _ => p == path
  }

  /** The walk delivers exactly the paths of the non-directory entries of the tree. */
  lemma {:induction false} WalkListingContents(dir: string, listing: seq<Entry>, p: string)
    ensures p in WalkListing(dir, listing) <==> Delivers(dir, listing, p)
    decreases listing
  {
    if |listing| > 0 {
      var e := listing[0];
      var path := ChildPath(dir, e.name);
      WalkListingContents(dir, listing[1..], p);
      if e.kind.Directory? {
        WalkListingContents(path, e.kind.listing, p);
      }
      assert p in WalkListing(dir, [e] + listing[1..]) <==> EntryDelivers(path, e, p) || p in WalkListing(dir, listing[1..]) by {
        assert [e] + listing[1..] == listing;
      }
      if Delivers(dir, listing, p) {
        var i :| 0 <= i < |listing| && EntryDelivers(ChildPath(dir, listing[i].name), listing[i], p);
        if i > 0 {
          assert listing[1..][i - 1] == listing[i];
        }
      }
      if Delivers(dir, listing[1..], p) {
        var i :| 0 <= i < |listing[1..]| && EntryDelivers(ChildPath(dir, listing[1..][i].name), listing[1..][i], p);
        assert listing[i + 1] == listing[1..][i];
      }
      if EntryDelivers(path, e, p) {
        assert EntryDelivers(ChildPath(dir, listing[0].name), listing[0], p);
      }
    }
  }

  /**
    Every listed entry that `stat` does not report as a directory is
    delivered under its own path; this includes an entry whose `stat` failed.
   */
  lemma WalkReportsNonDirectory(dir: string, listing: seq<Entry>, i: nat)
    requires i < |listing| && !listing[i].kind.Directory?
    ensures ChildPath(dir, listing[i].name) in WalkListing(dir, listing)
  {
    var p := ChildPath(dir, listing[i].name);
    assert EntryDelivers(p, listing[i], p);
    WalkListingContents(dir, listing, p);
  }

  /** A pending part of the walk: the rest of one directory's listing. */
  datatype Frame = Frame(dir: string, pending: seq<Entry>)

  /** What a stack of pending frames still has to deliver, top frame first. */
  function StackWalk(stack: seq<Frame>): seq<string>
    decreases stack
  {
    if |stack| == 0 then [] else WalkListing(stack[0].dir, stack[0].pending) + StackWalk(stack[1..])
  }

  /** Work left in a listing: every entry counts once, a directory also counts its children. */
  function Size(listing: seq<Entry>): nat
    decreases listing
  {
    if |listing| == 0 then 0
    else
      (match listing[0].kind
       case Directory(children) => 2 + Size(children)
       case _ => 1)
      + Size(listing[1..])
  }

  function StackSize(stack: seq<Frame>): nat
    decreases stack
  {
    if |stack| == 0 then 0 else 1 + Size(stack[0].pending) + StackSize(stack[1..])
  }

  /**
    The walk with an explicit stack in place of the callback recursion (the
    continuation `next()` of each directory is its frame). It delivers exactly
    what the recursive walk delivers, in the same order.
   */
  method WalkIterative(root: string, listing: seq<Entry>) returns (paths: seq<string>)
    ensures paths == WalkListing(root, listing)
  {
    paths := [];
    var stack := [Frame(root, listing)];
    assert StackWalk(stack) == WalkListing(root, listing) + StackWalk([]);
    while |stack| > 0
      invariant paths + StackWalk(stack) == WalkListing(root, listing)
      decreases StackSize(stack)
    {
      var top := stack[0];
      if |top.pending| == 0 {
        StackPop(stack);
        stack := stack[1..];
      } else {
        var e := top.pending[0];
        var path := ChildPath(top.dir, e.name);
        var next := Frame(top.dir, top.pending[1..]);
        match e.kind {
          case Directory(children) =>
            StackDescend(stack);
            stack := [Frame(path, children), next] + stack[1..];
          case _ =>
            StackDeliver(stack);
            paths := paths + [path];
            stack := [next] + stack[1..];
        }
      }
    }
  }

  /** A finished frame is dropped. */
  lemma StackPop(stack: seq<Frame>)
    requires |stack| > 0 && |stack[0].pending| == 0
    ensures StackWalk(stack[1..]) == StackWalk(stack)
    ensures StackSize(stack[1..]) < StackSize(stack)
  {
  }

  /** A directory entry on top is replaced by a frame for its own listing. */
  lemma StackDescend(stack: seq<Frame>)
    requires |stack| > 0 && |stack[0].pending| > 0 && stack[0].pending[0].kind.Directory?
    ensures var top := stack[0];
            var e := top.pending[0];
            var stack' := [Frame(ChildPath(top.dir, e.name), e.kind.listing), Frame(top.dir, top.pending[1..])] + stack[1..];
            && StackWalk(stack') == StackWalk(stack)
            && StackSize(stack') < StackSize(stack)
  {
    var top := stack[0];
    var e := top.pending[0];
    var first := Frame(ChildPath(top.dir, e.name), e.kind.listing);
    var next := Frame(top.dir, top.pending[1..]);
    var stack' := [first, next] + stack[1..];
    assert stack'[1..] == [next] + stack[1..];
    assert stack'[1..][1..] == stack[1..];
  }

  /** Any other entry on top is delivered as a path. */
  lemma StackDeliver(stack: seq<Frame>)
    requires |stack| > 0 && |stack[0].pending| > 0 && !stack[0].pending[0].kind.Directory?
    ensures var top := stack[0];
            var stack' := [Frame(top.dir, top.pending[1..])] + stack[1..];
            && [ChildPath(top.dir, top.pending[0].name)] + StackWalk(stack') == StackWalk(stack)
            && StackSize(stack') < StackSize(stack)
  {
    var top := stack[0];
    var stack' := [Frame(top.dir, top.pending[1..])] + stack[1..];
    assert stack'[1..] == stack[1..];
  }
}
