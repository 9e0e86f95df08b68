/**
  The stylesheet-extension filter: a path is watched only when the text after
  its last `.` (the whole path when it has no `.`) is one of the recognised
  stylesheet extensions, compared case-sensitively.
 */
module Extensions {
  import opened Text

  /** The recognised extensions, in the order the source lists them. */
  const CssExtensions: seq<string> := ["css", "sass", "scss", "less", "styl"]

  /** `path.split('.').pop()`: the last `.`-separated piece of the whole path. */
  function Extension(path: string): string {
    var pieces := Split(path, '.');
    pieces[|pieces| - 1]
  }

  /** `list.indexOf(x)`: the first position of `x`, or -1. */
  function IndexOf(list: seq<string>, x: string): int {
    if |list| == 0 then -1
    else if list[0] == x then 0
    else
      var k := IndexOf(list[1..], x);
      if k == -1 then -1 else k + 1
  }

  /** `indexOf` finds `x` exactly when it is listed, and then at a position holding `x`. */
  lemma {:induction false} IndexOfFinds(list: seq<string>, x: string)
    ensures IndexOf(list, x) == -1 <==> x !in list
    ensures IndexOf(list, x) != -1 ==> 0 <= IndexOf(list, x) < |list| && list[IndexOf(list, x)] == x
    decreases |list|
  {
    if |list| > 0 && list[0] != x {
      IndexOfFinds(list[1..], x);
      assert x in list <==> x in list[1..] by {
        assert list == [list[0]] + list[1..];
      }
      var k := IndexOf(list[1..], x);
      if k != -1 {
        assert list[k + 1] == list[1..][k];
      }
    }
  }

  /** `css_extensions.indexOf(ext) !== -1` */
  predicate Eligible(path: string) {
    IndexOf(CssExtensions, Extension(path)) != -1
  }

  /** `path` is `ext` itself or ends in `.` followed by `ext`. */
  predicate HasExtension(path: string, ext: string) {
    path == ext || EndsWith(path, "." + ext)
  }

  /**
    For a dot-free candidate `ext`, the extension the source computes is `ext`
    exactly when the path is `ext` or ends in `.ext`.
   */
  lemma {:induction false} ExtensionCharacterized(path: string, ext: string)
    requires '.' !in ext
    ensures Extension(path) == ext <==> HasExtension(path, ext)
  {
    ExtensionIsSuffix(path);
    if HasExtension(path, ext) {
      SuffixIsExtension(path, ext);
    }
  }

  /** The computed extension is the whole path or follows its last `.`. */
  lemma {:induction false} ExtensionIsSuffix(path: string)
    ensures HasExtension(path, Extension(path))
    decreases |path|
  {
    var i := FirstIndex(path, '.');
    if i < |path| {
      var rest := path[i + 1..];
      assert Extension(path) == Extension(rest) by {
        assert Split(path, '.') == [path[..i]] + Split(rest, '.');
      }
      ExtensionIsSuffix(rest);
      SuffixAfterDot(path, i, Extension(rest));
    }
  }

  /** A path keeps any extension of the text after one of its dots. */
  lemma SuffixAfterDot(path: string, i: nat, ext: string)
    requires i < |path| && path[i] == '.' && HasExtension(path[i + 1..], ext)
    ensures HasExtension(path, ext)
  {
    var rest := path[i + 1..];
    if rest == ext {
      assert path[|path| - |ext| - 1..] == "." + ext;
    } else {
      assert path[|path| - |ext| - 1..] == rest[|rest| - |ext| - 1..];
    }
  }

  /** A dot-free suffix after a `.`, or the whole dot-free path, is the computed extension. */
  lemma SuffixIsExtension(path: string, ext: string)
    requires '.' !in ext && HasExtension(path, ext)
    ensures Extension(path) == ext
  {
    SplitWithoutSeparator(ext, '.');
    if path != ext {
      var pre := path[..|path| - |ext| - 1];
      assert path == pre + ['.'] + ext;
      SplitAtSeparator(pre, ext, '.');
    }
  }

  /**
    A path is eligible for watching iff it is, or ends in `.` followed by, one
    of `css`, `sass`, `scss`, `less`, `styl`.
   */
  lemma EligibleIff(path: string)
    ensures Eligible(path) <==> exists e | e in CssExtensions :: HasExtension(path, e)
  {
    IndexOfFinds(CssExtensions, Extension(path));
    forall e | e in CssExtensions
      ensures Extension(path) == e <==> HasExtension(path, e)
    {
      ExtensionCharacterized(path, e);
    }
  }
}
