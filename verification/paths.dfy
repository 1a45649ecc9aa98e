/** `fix_path`: expand the home directory in a configured path. */
module Paths {
  import opened PyStr

  /**
   Every '~' in `path`, wherever it stands, is replaced by `home` (the value
   of `os.path.expanduser("~")`); a path without '~' is returned as it is.
   */
  function FixPath(path: string, home: string): (r: string)
    ensures '~' !in path ==> r == path
    ensures '~' !in home ==> '~' !in r
    ensures |r| == |path| + multiset(path)['~'] * (|home| - 1)
  {
    if '~' in path then
      ReplaceCharRemovesIf(path, home);
      ReplaceCharLength(path, '~', home);
      ReplaceAll(path, "~", home)
    else
      path
  }

  lemma ReplaceCharRemovesIf(path: string, home: string)
    ensures '~' !in home ==> '~' !in ReplaceAll(path, "~", home)
  {
    if '~' !in home {
      ReplaceCharRemoves(path, '~', home);
    }
  }

  /** Fixing a path piece by piece is fixing it whole. */
  lemma FixPathConcat(a: string, b: string, home: string)
    ensures FixPath(a + b, home) == FixPath(a, home) + FixPath(b, home)
  {
    ReplaceCharConcat(a, b, '~', home);
    if '~' !in a { ReplaceAbsentChar(a, '~', home); }
    if '~' !in b { ReplaceAbsentChar(b, '~', home); }
    if '~' !in a + b { ReplaceAbsentChar(a + b, '~', home); }
  }

  /** A lone '~' becomes the home directory, and any other character stays. */
  lemma FixPathChar(c: char, home: string)
    ensures FixPath([c], home) == if c == '~' then home else [c]
  {
    if c == '~' {
      assert StartsWith([c], "~");
      assert ReplaceAll([c], "~", home) == home + ReplaceAll([], "~", home);
    }
  }

  /** With a home directory free of '~', fixing twice is fixing once. */
  lemma FixPathIdempotent(path: string, home: string)
    requires '~' !in home
    ensures FixPath(FixPath(path, home), home) == FixPath(path, home)
  {
  }

  /** A '~' in the middle of a path is expanded too, not only a leading one. */
  lemma FixPathInner(a: string, b: string, home: string)
    requires '~' !in a && '~' !in b
    ensures FixPath(a + "~" + b, home) == a + home + b
  {
    FixPathConcat(a + "~", b, home);
    FixPathConcat(a, "~", home);
    FixPathChar('~', home);
  }
}
