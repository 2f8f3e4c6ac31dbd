// Python string operations used by the parsers: `str.split(sep)`,
// `str.split()` on whitespace, `sep.join`, `str.startswith`,
// `str.replace` and deleting a character.
module Strs {

  /**
   * `c.isspace()` on a Python `str`: the ASCII whitespace, the information
   * separators U+001C to U+001F, and the Unicode spaces and line separators.
   */
  predicate IsSpace(c: char)
  {
    if c <= ' ' then '\t' <= c <= '\r' || '\U{001C}' <= c
    else (c == '\U{0085}' || c == '\U{00A0}' || c == '\U{1680}' || '\U{2000}' <= c <= '\U{200A}' ||
          c == '\U{2028}' || c == '\U{2029}' || c == '\U{202F}' || c == '\U{205F}' || c == '\U{3000}')
  }

  predicate StartsWith(s: string, prefix: string)
  {
    |prefix| <= |s| && s[..|prefix|] == prefix
  }

  /** The pieces of `s` between characters satisfying `sep`, empty pieces included. */
  function SplitWhere(s: string, sep: char -> bool): (r: seq<string>)
    ensures |r| >= 1
    ensures forall i, k :: 0 <= i < |r| && 0 <= k < |r[i]| ==> !sep(r[i][k])
  {
    if s == [] then [""]
    else
      var rest := SplitWhere(s[1..], sep);
      if sep(s[0]) then [""] + rest
      else
        var r := [[s[0]] + rest[0]] + rest[1..];
        assert forall i :: 1 <= i < |r| ==> r[i] == rest[i];
        r
  }

  /** `s.split(c)`. */
  function Split(s: string, c: char): (r: seq<string>)
    ensures |r| >= 1
    ensures forall i :: 0 <= i < |r| ==> c !in r[i]
  {
    SplitWhere(s, x => x == c)
  }

  /** `c.join(pieces)`. */
  function Join(pieces: seq<string>, c: char): string
  {
    if pieces == [] then ""
    else if |pieces| == 1 then pieces[0]
    else pieces[0] + [c] + Join(pieces[1..], c)
  }

  /** Splitting then joining on the same separator gives back the string. */
  lemma {:induction false} JoinSplit(s: string, c: char)
    ensures Join(Split(s, c), c) == s
    decreases |s|
  {
    if s != [] {
      JoinSplit(s[1..], c);
      var rest := Split(s[1..], c);
      assert SplitWhere(s[1..], x => x == c) == rest;
      if s[0] == c {
        assert Split(s, c) == [""] + rest;
        assert ([""] + rest)[1..] == rest;
        assert s == [c] + s[1..];
      } else {
        var r := Split(s, c);
        assert r == [[s[0]] + rest[0]] + rest[1..];
        if |rest| == 1 {
          assert s == [s[0]] + rest[0];
        } else {
          assert r[1..] == rest[1..];
          assert Join(rest, c) == rest[0] + [c] + Join(rest[1..], c);
          assert s == [s[0]] + s[1..];
        }
      }
    }
  }

  /** Joining separator-free pieces and splitting again gives back the pieces. */
  lemma {:induction false} SplitJoin(pieces: seq<string>, c: char)
    requires |pieces| >= 1
    requires forall i :: 0 <= i < |pieces| ==> c !in pieces[i]
    ensures Split(Join(pieces, c), c) == pieces
    decreases |pieces|, |pieces[0]|
  {
    if |pieces| == 1 {
      SplitFree(pieces[0], c);
    } else if pieces[0] == [] {
      var rest := pieces[1..];
      SplitJoin(rest, c);
      var s := Join(pieces, c);
      assert s == [c] + Join(rest, c);
      assert s[1..] == Join(rest, c);
      assert SplitWhere(s[1..], x => x == c) == rest;
      assert [""] + rest == pieces;
    } else {
      var head := pieces[0];
      var shorter := [head[1..]] + pieces[1..];
      assert shorter[1..] == pieces[1..];
      assert forall i :: 1 <= i < |shorter| ==> shorter[i] == pieces[i];
      assert head[0] != c;
      assert head == [head[0]] + head[1..];
      SplitJoin(shorter, c);
      var s := Join(pieces, c);
      assert s == [head[0]] + Join(shorter, c);
      assert s[1..] == Join(shorter, c);
      assert SplitWhere(s[1..], x => x == c) == shorter;
      assert [[head[0]] + head[1..]] + pieces[1..] == pieces;
    }
  }

  lemma {:induction false} SplitFree(s: string, c: char)
    requires c !in s
    ensures Split(s, c) == [s]
    decreases |s|
  {
    if s != [] {
      assert s == [s[0]] + s[1..];
      SplitFree(s[1..], c);
      assert SplitWhere(s[1..], x => x == c) == [s[1..]];
      assert [s[0]] + s[1..] == s;
    }
  }

  /** Keeps the non-empty strings, in order. */
  function NonEmptyStrings(s: seq<string>): (r: seq<string>)
    ensures forall i :: 0 <= i < |r| ==> r[i] != []
    ensures forall x :: x in r <==> x in s && x != []
  {
    if s == [] then []
    else
      var rest := NonEmptyStrings(s[1..]);
      assert forall x :: x in s <==> x == s[0] || x in s[1..] by {
        assert s == [s[0]] + s[1..];
      }
      if s[0] != [] then [s[0]] + rest else rest
  }

  /** `s.split()`: the maximal runs of non-whitespace characters. */
  function Tokens(s: string): (r: seq<string>)
    ensures forall i :: 0 <= i < |r| ==> r[i] != [] && forall k :: 0 <= k < |r[i]| ==> !IsSpace(r[i][k])
  {
    var pieces := SplitWhere(s, IsSpace);
    var r := NonEmptyStrings(pieces);
    assert forall i :: 0 <= i < |r| ==> r[i] in pieces;
    r
  }

  /** `s.replace(c, "")`. */
  function Delete(s: string, c: char): (r: string)
    ensures c !in r
    ensures forall x :: x != c ==> (x in r <==> x in s)
    ensures |r| <= |s|
    ensures c !in s ==> r == s
  {
    if s == [] then ""
    else
      var rest := Delete(s[1..], c);
      assert forall x :: x in s <==> x == s[0] || x in s[1..] by {
        assert s == [s[0]] + s[1..];
      }
      if s[0] == c then rest else [s[0]] + rest
  }

  /**
   * `s.replace(pat, rep)`: every occurrence of `pat`, scanning left to right
   * without overlaps, is replaced by `rep`; an empty `pat` matches before
   * every character and at the end.
   */
  function Replace(s: string, pat: string, rep: string): (r: string)
    decreases |s|
  {
    if pat == [] then
      if s == [] then rep else rep + [s[0]] + Replace(s[1..], pat, rep)
    else if StartsWith(s, pat) then rep + Replace(s[|pat|..], pat, rep)
    else if s == [] then ""
    else [s[0]] + Replace(s[1..], pat, rep)
  }

  /** Replacing a string that does not occur changes nothing. */
  lemma {:induction false} ReplaceAbsent(s: string, pat: string, rep: string)
    requires pat != []
    requires forall k :: 0 <= k <= |s| ==> !StartsWith(s[k..], pat)
    ensures Replace(s, pat, rep) == s
    decreases |s|
  {
    if s != [] {
      assert !StartsWith(s[0..], pat);
      assert s[0..] == s;
      forall k | 0 <= k <= |s[1..]| ensures !StartsWith(s[1..][k..], pat) {
        assert s[1..][k..] == s[k + 1..];
      }
      ReplaceAbsent(s[1..], pat, rep);
      assert [s[0]] + s[1..] == s;
    }
  }

  /** Replacing a string by itself changes nothing. */
  lemma {:induction false} ReplaceIdentity(s: string, pat: string)
    ensures Replace(s, pat, pat) == s
    decreases |s|
  {
    if pat == [] {
      if s != [] {
        ReplaceIdentity(s[1..], pat);
        assert [s[0]] + s[1..] == s;
      }
    } else if StartsWith(s, pat) {
      ReplaceIdentity(s[|pat|..], pat);
      assert s[..|pat|] + s[|pat|..] == s;
    } else if s != [] {
      ReplaceIdentity(s[1..], pat);
      assert [s[0]] + s[1..] == s;
    }
  }

  /** `s.strip()`: `s` without leading and trailing whitespace. */
  function Strip(s: string): (r: string)
    ensures |r| <= |s|
    ensures r != [] ==> !IsSpace(r[0]) && !IsSpace(r[|r| - 1])
  {
    var t := StripLeft(s);
    StripRightPrefix(t);
    StripRight(t)
  }

  function StripLeft(s: string): (r: string)
    ensures |r| <= |s| && (r != [] ==> !IsSpace(r[0]))
  {
    if s != [] && IsSpace(s[0]) then StripLeft(s[1..]) else s
  }

  function StripRight(s: string): (r: string)
    ensures |r| <= |s| && (r != [] ==> !IsSpace(r[|r| - 1]))
  {
    if s != [] && IsSpace(s[|s| - 1]) then StripRight(s[..|s| - 1]) else s
  }

  /** What `StripLeft` keeps is a suffix of its argument. */
  lemma {:induction false} StripLeftSuffix(s: string)
    ensures StripLeft(s) == s[|s| - |StripLeft(s)|..]
    decreases |s|
  {
    if s != [] && IsSpace(s[0]) {
      StripLeftSuffix(s[1..]);
    }
  }

  /** What `StripRight` keeps is a prefix of its argument. */
  lemma {:induction false} StripRightPrefix(s: string)
    ensures StripRight(s) == s[..|StripRight(s)|]
    decreases |s|
  {
    if s != [] && IsSpace(s[|s| - 1]) {
      StripRightPrefix(s[..|s| - 1]);
    }
  }

  /** A string with no whitespace at either end is its own strip. */
  lemma StripClean(s: string)
    requires s != [] ==> !IsSpace(s[0]) && !IsSpace(s[|s| - 1])
    ensures Strip(s) == s
  {
  }
}
