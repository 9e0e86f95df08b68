/**
  Deriving the watched roots from the command line (`getDirectoriesToWatch`):
  the first positional argument, made absolute against the working directory
  unless it starts with `/`, or the working directory itself when there is no
  argument; the result is split on `:` into several roots.
 */
module Roots {
  import opened Text

  /** `/^\//.test(arg)` */
  predicate IsAbsolute(arg: string) {
    |arg| > 0 && arg[0] == '/'
  }

  /**
    The roots to watch. `cwd` is `process.cwd()` and `join` is `path.join`,
    whose normalisation is not modelled.
   */
  function DirectoriesToWatch(args: seq<string>, cwd: string, join: (string, string) -> string): (dirs: seq<string>)
    ensures |dirs| >= 1
    ensures forall i | 0 <= i < |dirs| :: ':' !in dirs[i]
    ensures |args| == 0 ==> Join(dirs, ':') == cwd
    ensures |args| > 0 && IsAbsolute(args[0]) ==> Join(dirs, ':') == args[0]
    ensures |args| > 0 && !IsAbsolute(args[0]) ==> Join(dirs, ':') == join(cwd, args[0])
  {
    var chosen :=
      if |args| > 0 then
        if IsAbsolute(args[0]) then args[0] else join(cwd, args[0])
      else
        cwd;
    SplitPieces(chosen, ':');
    JoinSplit(chosen, ':');
    Split(chosen, ':')
  }

  /** The chosen path yields one root per `:`-separated piece, and exactly itself when it has no `:`. */
  lemma RootCount(args: seq<string>, cwd: string, join: (string, string) -> string)
    ensures var chosen := if |args| > 0 then (if IsAbsolute(args[0]) then args[0] else join(cwd, args[0])) else cwd;
            var dirs := DirectoriesToWatch(args, cwd, join);
            && |dirs| == multiset(chosen)[':'] + 1
            && (':' !in chosen ==> dirs == [chosen])
  {
    var chosen := if |args| > 0 then (if IsAbsolute(args[0]) then args[0] else join(cwd, args[0])) else cwd;
    SplitPieces(chosen, ':');
    if ':' !in chosen {
      SplitWithoutSeparator(chosen, ':');
    }
  }

  /**
    Only the argument as a whole is tested for a leading `/`: in `a:b` with
    `a` absolute, the second root `b` is taken as it stands, relative or not,
    and is not joined to the working directory.
   */
  lemma OnlyFirstRootMadeAbsolute(a: string, b: string, cwd: string, join: (string, string) -> string)
    requires IsAbsolute(a) && ':' !in a && ':' !in b
    ensures DirectoriesToWatch([a + ":" + b], cwd, join) == [a, b]
  {
    var arg := a + ":" + b;
    assert arg[0] == a[0];
    assert arg == a + [':'] + b;
    SplitAtSeparator(a, b, ':');
    SplitWithoutSeparator(a, ':');
    SplitWithoutSeparator(b, ':');
  }
}
