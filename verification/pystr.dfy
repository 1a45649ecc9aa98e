/**
 The handful of Python `str` operations the program relies on, written out over
 `seq<char>`: `startswith`, `endswith`, slicing, `replace`, `split` and `rstrip`.
 The number of occurrences of a character `c` in `s` is `multiset(s)[c]`.
 */
module PyStr {

  /** `s.startswith(p)` */
  predicate StartsWith(s: string, p: string) {
    |p| <= |s| && s[..|p|] == p
  }

  /** `s.endswith(p)` */
  predicate EndsWith(s: string, p: string) {
    |p| <= |s| && s[|s| - |p|..] == p
  }

  /** `s[:n]` for `n >= 0`: Python clips a slice bound that is past the end. */
  function Head(s: string, n: nat): (r: string)
    ensures |r| == if |s| <= n then |s| else n
    ensures StartsWith(s, r)
  {
    if |s| <= n then s else s[..n]
  }

  /** `s[1:-1]`: the empty string when `s` has fewer than two characters. */
  function Inner(s: string): (r: string)
    ensures |s| >= 2 ==> [s[0]] + r + [s[|s| - 1]] == s
    ensures |s| < 2 ==> r == ""
  {
    if |s| >= 2 then s[1..|s| - 1] else ""
  }

  /**
   `s.replace(pat, rep)`: scan from the left, replace each occurrence of `pat`
   and continue after it, so replaced occurrences never overlap.
   */
  function ReplaceAll(s: string, pat: string, rep: string): string
    requires pat != []
    decreases |s|
  {
    if s == [] then []
    else if StartsWith(s, pat) then rep + ReplaceAll(s[|pat|..], pat, rep)
    else [s[0]] + ReplaceAll(s[1..], pat, rep)
  }

  /** A text that is exactly the pattern is replaced whole. */
  lemma ReplaceWhole(pat: string, rep: string)
    requires pat != []
    ensures ReplaceAll(pat, pat, rep) == rep
  {
    assert StartsWith(pat, pat) && pat[|pat|..] == [];
    assert ReplaceAll(pat, pat, rep) == rep + ReplaceAll([], pat, rep);
    assert rep + [] == rep;
  }

  /** Replacing a character that does not occur changes nothing. */
  lemma {:induction false} ReplaceAbsentChar(s: string, c: char, rep: string)
    requires c !in s
    ensures ReplaceAll(s, [c], rep) == s
    decreases |s|
  {
    if s != [] {
      assert !StartsWith(s, [c]) by { assert s[..1] == [s[0]]; }
      ReplaceAbsentChar(s[1..], c, rep);
      assert [s[0]] + s[1..] == s;
    }
  }

  /** Replacing a single character distributes over concatenation. */
  lemma {:induction false} ReplaceCharConcat(a: string, b: string, c: char, rep: string)
    ensures ReplaceAll(a + b, [c], rep) == ReplaceAll(a, [c], rep) + ReplaceAll(b, [c], rep)
    decreases |a|
  {
    if a == [] {
      assert a + b == b;
    } else {
      var ab := a + b;
      assert ab[0] == a[0] && ab[1..] == a[1..] + b;
      assert StartsWith(ab, [c]) <==> StartsWith(a, [c]) by {
        assert ab[..1] == [a[0]] && a[..1] == [a[0]];
      }
      ReplaceCharConcat(a[1..], b, c, rep);
    }
  }

  /** After replacing every `c` by a text without `c`, no `c` is left. */
  lemma {:induction false} ReplaceCharRemoves(s: string, c: char, rep: string)
    requires c !in rep
    ensures c !in ReplaceAll(s, [c], rep)
    decreases |s|
  {
    if s != [] {
      assert StartsWith(s, [c]) <==> s[0] == c by { assert s[..1] == [s[0]]; }
      ReplaceCharRemoves(s[1..], c, rep);
    }
  }

  /**
   Replacing every `c` by a text of length `|rep|` grows the text by
   `|rep| - 1` per occurrence.
   */
  lemma {:induction false} ReplaceCharLength(s: string, c: char, rep: string)
    ensures |ReplaceAll(s, [c], rep)| == |s| + multiset(s)[c] * (|rep| - 1)
    decreases |s|
  {
    if s != [] {
      assert StartsWith(s, [c]) <==> s[0] == c by { assert s[..1] == [s[0]]; }
      assert s == [s[0]] + s[1..];
      var k, d := multiset(s[1..])[c], |rep| - 1;
      ReplaceCharLength(s[1..], c, rep);
      if s[0] == c {
        assert multiset(s)[c] == k + 1;
        assert (k + 1) * d == k * d + d;
      } else {
        assert multiset(s)[c] == k;
      }
    }
  }

  /**
   A prefix `q` without the marker `m` of `s` with every `pat` replaced by
   `[m] + pat` is already a prefix of `s`: each inserted text starts with `m`.
   */
  lemma {:induction false} MarkedPrefix(s: string, pat: string, m: char, q: string)
    requires pat != [] && m !in q
    ensures StartsWith(ReplaceAll(s, pat, [m] + pat), q) ==> StartsWith(s, q)
    decreases |s|
  {
    var t := ReplaceAll(s, pat, [m] + pat);
    if q != [] && s != [] && !StartsWith(s, pat) && StartsWith(t, q) {
      assert t == [s[0]] + ReplaceAll(s[1..], pat, [m] + pat);
      assert q[0] == s[0];
      assert StartsWith(ReplaceAll(s[1..], pat, [m] + pat), q[1..]) by {
        assert t[1..|q|] == q[1..];
      }
      MarkedPrefix(s[1..], pat, m, q[1..]);
      assert s[..|q|] == [s[0]] + s[1..][..|q| - 1];
      assert q == [q[0]] + q[1..];
    }
  }

  /**
   Prefixing every occurrence of `pat` with a marker character `m` that does
   not occur in `pat`, then replacing every `[m] + pat` by `pat`, gives back the
   original text.
   */
  lemma {:induction false} MarkThenUnmark(s: string, pat: string, m: char)
    requires pat != [] && m !in pat
    ensures ReplaceAll(ReplaceAll(s, pat, [m] + pat), [m] + pat, pat) == s
    decreases |s|
  {
    var marked := [m] + pat;
    var t := ReplaceAll(s, pat, marked);
    if s == [] {
    } else if StartsWith(s, pat) {
      var rest := ReplaceAll(s[|pat|..], pat, marked);
      assert t == marked + rest;
      assert StartsWith(t, marked) && t[|marked|..] == rest;
      MarkThenUnmark(s[|pat|..], pat, m);
      assert s == pat + s[|pat|..];
    } else {
      var rest := ReplaceAll(s[1..], pat, marked);
      assert t == [s[0]] + rest;
      // The text after the first character does not start with `pat`:
      // either it starts with the marker, or `s[1..]` does not start with `pat`.
      assert !StartsWith(rest, pat) by {
        if s[1..] != [] && StartsWith(s[1..], pat) {
          assert rest == marked + ReplaceAll(s[1..][|pat|..], pat, marked);
          assert rest[0] == m && pat[0] != m;
        } else {
          MarkedPrefix(s[1..], pat, m, pat);
        }
      }
      assert !StartsWith(t, marked) by {
        if |t| >= |marked| && s[0] == m {
          assert t[1..|marked|] == rest[..|pat|];
        }
      }
      assert t[1..] == rest;
      MarkThenUnmark(s[1..], pat, m);
      assert s == [s[0]] + s[1..];
    }
  }

  /** No proper suffix of `pat` is also a prefix of it: occurrences cannot overlap. */
  predicate NoSelfOverlap(pat: string) {
    forall d :: 0 < d < |pat| ==> !StartsWith(pat, pat[d..])
  }

  /** Every occurrence of `pat` in `s` comes right after the marker `m`. */
  predicate EveryOccurrenceMarked(s: string, pat: string, m: char) {
    forall i :: 0 <= i <= |s| && StartsWith(s[i..], pat) ==> 0 < i && s[i - 1] == m
  }

  /**
   Removing the marker in front of each `[m] + pat` creates no text that starts
   with a proper suffix `pat[d..]` of a self-overlap-free `pat`, unless the
   text already started with it.
   */
  lemma {:induction false} UnmarkedPrefix(t: string, pat: string, m: char, d: nat)
    requires 0 < d <= |pat| && NoSelfOverlap(pat)
    ensures StartsWith(ReplaceAll(t, [m] + pat, pat), pat[d..]) ==> StartsWith(t, pat[d..])
    decreases |t|
  {
    var q := pat[d..];
    var u := ReplaceAll(t, [m] + pat, pat);
    if q != [] && t != [] {
      if StartsWith(t, [m] + pat) {
        assert u == pat + ReplaceAll(t[|pat| + 1..], [m] + pat, pat);
        assert !StartsWith(u, q) by {
          assert d < |pat| && !StartsWith(pat, pat[d..]);
          assert u[..|q|] == pat[..|q|];
        }
      } else if StartsWith(u, q) {
        var u1 := ReplaceAll(t[1..], [m] + pat, pat);
        assert u == [t[0]] + u1;
        assert q[0] == t[0] && pat[d + 1..] == q[1..];
        assert StartsWith(u1, q[1..]) by { assert u[1..|q|] == q[1..]; }
        UnmarkedPrefix(t[1..], pat, m, d + 1);
        assert t[..|q|] == [t[0]] + t[1..][..|q| - 1];
        assert q == [q[0]] + q[1..];
      }
    }
  }

  /**
   When every occurrence of a self-overlap-free `pat` follows the marker `m`,
   removing the marker in front of each `[m] + pat` and then putting it back in
   front of each `pat` gives back the original text.
   */
  lemma {:induction false} UnmarkThenMark(s: string, pat: string, m: char)
    requires pat != [] && m !in pat && NoSelfOverlap(pat)
    requires EveryOccurrenceMarked(s, pat, m)
    ensures ReplaceAll(ReplaceAll(s, [m] + pat, pat), pat, [m] + pat) == s
    decreases |s|
  {
    var marked := [m] + pat;
    var u := ReplaceAll(s, marked, pat);
    if s == [] {
    } else if StartsWith(s, marked) {
      var r := s[|marked|..];
      var ur := ReplaceAll(r, marked, pat);
      assert u == pat + ur;
      assert StartsWith(u, pat) && u[|pat|..] == ur;
      assert !StartsWith(r, pat) by {
        assert s[|marked|..] == r && s[|marked| - 1] == pat[|pat| - 1];
      }
      forall i | 0 <= i <= |r| && StartsWith(r[i..], pat)
        ensures 0 < i && r[i - 1] == m
      {
        assert s[i + |marked|..] == r[i..] && r[0..] == r;
        assert 0 < i ==> s[i + |marked| - 1] == r[i - 1];
      }
      UnmarkThenMark(r, pat, m);
      assert s == marked + r;
    } else {
      var t := s[1..];
      var ut := ReplaceAll(t, marked, pat);
      assert u == [s[0]] + ut;
      assert !StartsWith(s, pat) by { assert s[0..] == s; }
      assert !StartsWith(t, pat) by {
        assert s[1..] == t;
        if |marked| <= |s| {
          assert s[..|marked|] == [s[0]] + t[..|pat|];
        }
      }
      forall i | 0 <= i <= |t| && StartsWith(t[i..], pat)
        ensures 0 < i && t[i - 1] == m
      {
        assert s[i + 1..] == t[i..] && t[0..] == t;
      }
      assert !StartsWith(u, pat) by {
        if |pat| <= |u| && s[0] == pat[0] {
          UnmarkedPrefix(t, pat, m, 1);
          assert !StartsWith(t, pat[1..]) by {
            if |pat| <= |s| {
              assert s[..|pat|] == [s[0]] + t[..|pat| - 1];
              assert pat == [pat[0]] + pat[1..];
            }
          }
          assert u[1..|pat|] == ut[..|pat| - 1];
        }
      }
      assert ReplaceAll(u, pat, marked) == [s[0]] + ReplaceAll(ut, pat, marked) by {
        assert u[1..] == ut;
      }
      UnmarkThenMark(t, pat, m);
      assert s == [s[0]] + t;
    }
  }

  /** `sep.join(parts)` for a one-character separator. */
  function Join(parts: seq<string>, sep: char): string
    requires |parts| >= 1
  {
    if |parts| == 1 then parts[0] else parts[0] + [sep] + Join(parts[1..], sep)
  }

  /**
   `s.split(sep)` for a one-character separator: the pieces between the
   separators, from left to right.
   */
  function Split(s: string, sep: char): (parts: seq<string>)
    ensures |parts| >= 1
  {
    if s == [] then [""]
    else
      var rest := Split(s[1..], sep);
      if s[0] == sep then [""] + rest
      else [[s[0]] + rest[0]] + rest[1..]
  }

  /** There is one more piece than there are separators. */
  lemma {:induction false} SplitCount(s: string, sep: char)
    ensures |Split(s, sep)| == multiset(s)[sep] + 1
    decreases |s|
  {
    if s != [] {
      SplitCount(s[1..], sep);
      assert s == [s[0]] + s[1..];
    }
  }

  /** No piece holds a separator. */
  lemma {:induction false} SplitPiecesFree(s: string, sep: char)
    ensures forall i :: 0 <= i < |Split(s, sep)| ==> sep !in Split(s, sep)[i]
    decreases |s|
  {
    if s != [] {
      SplitPiecesFree(s[1..], sep);
    }
  }

  /** Joining the pieces with the separator gives back the text. */
  lemma {:induction false} SplitJoin(s: string, sep: char)
    ensures Join(Split(s, sep), sep) == s
    decreases |s|
  {
    if s != [] {
      var rest := Split(s[1..], sep);
      SplitJoin(s[1..], sep);
      assert s == [s[0]] + s[1..];
      if s[0] == sep {
        assert ([""] + rest)[1..] == rest;
      } else {
        var parts := [[s[0]] + rest[0]] + rest[1..];
        if |rest| > 1 {
          assert parts[1..] == rest[1..];
          assert Join(rest, sep) == rest[0] + [sep] + Join(rest[1..], sep);
        }
      }
    }
  }

  /** The position of the first `c` in `s`, or `|s|` when there is none. */
  function IndexOf(s: string, c: char): (i: nat)
    ensures i <= |s|
  {
    if s == [] || s[0] == c then 0 else 1 + IndexOf(s[1..], c)
  }

  lemma {:induction false} IndexOfFirst(a: string, b: string, c: char)
    requires c !in a
    ensures IndexOf(a + [c] + b, c) == |a|
    decreases |a|
  {
    if a != [] {
      assert (a + [c] + b)[1..] == a[1..] + [c] + b;
      IndexOfFirst(a[1..], b, c);
    }
  }

  /** A text with exactly one separator splits around it in only one way. */
  lemma SeparatorUnique(a: string, b: string, x: string, y: string, sep: char)
    requires sep !in a && sep !in x
    requires a + [sep] + b == x + [sep] + y
    ensures a == x && b == y
  {
    var s := a + [sep] + b;
    IndexOfFirst(a, b, sep);
    IndexOfFirst(x, y, sep);
    assert a == s[..|a|] && x == s[..|x|];
    assert b == s[|a| + 1..] && y == s[|x| + 1..];
  }

  /** Python's `str.isspace` for one character. */
  predicate IsSpace(c: char) {
    c == ' ' || ('\t' <= c <= '\r') || ('\U{1c}' <= c <= '\U{1f}') ||
    c == '\U{85}' || c == '\U{a0}' || c == '\U{1680}' || ('\U{2000}' <= c <= '\U{200a}') ||
    c == '\U{2028}' || c == '\U{2029}' || c == '\U{202f}' || c == '\U{205f}' || c == '\U{3000}'
  }

  /** `s.rstrip()`: drop the longest all-whitespace suffix. */
  function RStrip(s: string): (r: string)
    ensures |r| <= |s| && s[..|r|] == r
    ensures forall i :: |r| <= i < |s| ==> IsSpace(s[i])
    ensures r == [] || !IsSpace(r[|r| - 1])
    decreases |s|
  {
    if s != [] && IsSpace(s[|s| - 1]) then RStrip(s[..|s| - 1]) else s
  }

  /** `rstrip` removes only whitespace, so it keeps every other character. */
  lemma RStripKeepsCount(s: string, c: char)
    requires !IsSpace(c)
    ensures multiset(RStrip(s))[c] == multiset(s)[c]
  {
    var r := RStrip(s);
    var tail := s[|r|..];
    assert s == r + tail;
    forall i | 0 <= i < |tail| ensures tail[i] != c {
      assert IsSpace(s[|r| + i]);
    }
    assert multiset(s) == multiset(r) + multiset(tail);
  }
}
