/** The few Python string builtins the commit-message helpers rely on:
    `str.split` and `str.join` with a one-character separator, `str.strip`
    with no argument, `"".join` and `os.path.basename`. Strings are
    sequences of Unicode scalar values, close to Python's `str`, which may
    also hold lone surrogates. */
module Text {

  /** Python's `str.isspace` for one character: the characters `str.strip()`
      removes when called without an argument. */
  predicate IsSpace(c: char) {
    c == ' ' || ('\t' <= c <= '\r') || ('\U{1C}' <= c <= '\U{1F}') ||
    c == '\U{85}' || c == '\U{A0}' || c == '\U{1680}' ||
    ('\U{2000}' <= c <= '\U{200A}') || c == '\U{2028}' || c == '\U{2029}' ||
    c == '\U{202F}' || c == '\U{205F}' || c == '\U{3000}'
  }

  /** `sep.join(pieces)` for a one-character separator. */
  function Join(pieces: seq<string>, sep: char): string {
    if |pieces| == 0 then ""
    else if |pieces| == 1 then pieces[0]
    else pieces[0] + [sep] + Join(pieces[1..], sep)
  }

  /** `s.split(sep)` for a one-character separator: the maximal runs
      between separators, so never an empty list and never a piece that
      holds the separator. */
  function Split(s: string, sep: char): (pieces: seq<string>)
    ensures |pieces| >= 1
    ensures forall i :: 0 <= i < |pieces| ==> sep !in pieces[i]
    ensures |pieces| == 1 <==> sep !in s
    decreases |s|
  {
    if |s| == 0 then [""]
    else
      var rest := Split(s[1..], sep);
      if s[0] == sep then [""] + rest
      else [[s[0]] + rest[0]] + rest[1..]
  }

  /** Splitting and joining again gives back the original text. */
  lemma {:induction false} JoinSplit(s: string, sep: char)
    ensures Join(Split(s, sep), sep) == s
    decreases |s|
  {
    if |s| > 0 {
      var rest := Split(s[1..], sep);
      JoinSplit(s[1..], sep);
      if s[0] == sep {
        assert Split(s, sep) == [""] + rest;
        assert s == [sep] + s[1..];
      } else {
        var pieces := Split(s, sep);
        assert pieces[1..] == rest[1..];
        if |rest| == 1 {
          assert Join(rest, sep) == rest[0];
        } else {
          assert Join(rest, sep) == rest[0] + [sep] + Join(rest[1..], sep);
          assert Join(pieces, sep) == [s[0]] + rest[0] + [sep] + Join(rest[1..], sep);
        }
        assert s == [s[0]] + s[1..];
      }
    }
  }

  /** Joining pieces that hold no separator and splitting again gives back
      the pieces. */
  lemma {:induction false} SplitJoin(pieces: seq<string>, sep: char)
    requires |pieces| >= 1
    requires forall i :: 0 <= i < |pieces| ==> sep !in pieces[i]
    ensures Split(Join(pieces, sep), sep) == pieces
    decreases |pieces|, |pieces[0]|
  {
    var p := pieces[0];
    if |p| == 0 {
      if |pieces| > 1 {
        var tail := Join(pieces[1..], sep);
        assert Join(pieces, sep) == [sep] + tail;
        assert ([sep] + tail)[1..] == tail;
        SplitJoin(pieces[1..], sep);
        assert pieces == [""] + pieces[1..];
      }
    } else {
      var shorter := [p[1..]] + pieces[1..];
      assert shorter[1..] == pieces[1..];
      assert forall i :: 0 <= i < |shorter| ==> sep !in shorter[i] by {
        forall i | 0 <= i < |shorter| ensures sep !in shorter[i] {
          if i == 0 {
            assert p == [p[0]] + p[1..];
          } else {
            assert shorter[i] == pieces[i];
          }
        }
      }
      SplitJoin(shorter, sep);
      var whole := Join(pieces, sep);
      assert whole == [p[0]] + Join(shorter, sep) by {
        if |pieces| == 1 {
          assert p == [p[0]] + p[1..];
        } else {
          assert p == [p[0]] + p[1..];
          assert whole == p + [sep] + Join(pieces[1..], sep);
          assert Join(shorter, sep) == p[1..] + [sep] + Join(pieces[1..], sep);
        }
      }
      assert p[0] != sep by { assert p[0] in p; }
      assert whole[1..] == Join(shorter, sep);
      assert p == [p[0]] + p[1..];
      assert pieces == [[p[0]] + p[1..]] + pieces[1..];
    }
  }

  /** `"".join(pieces)`. */
  function Concat(pieces: seq<string>): string {
    if |pieces| == 0 then "" else pieces[0] + Concat(pieces[1..])
  }

  /** Concatenation distributes over appending lists. */
  lemma {:induction false} ConcatAppend(xs: seq<string>, ys: seq<string>)
    ensures Concat(xs + ys) == Concat(xs) + Concat(ys)
    decreases |xs|
  {
    if |xs| > 0 {
      assert (xs + ys)[1..] == xs[1..] + ys;
      ConcatAppend(xs[1..], ys);
    } else {
      assert xs + ys == ys;
    }
  }

  /** Where `s.strip()` starts: the index of the first non-whitespace
      character at or after `from`, or `|s|` when there is none. */
  function SkipSpace(s: string, from: nat): (i: nat)
    requires from <= |s|
    ensures from <= i <= |s|
    ensures forall k :: from <= k < i ==> IsSpace(s[k])
    ensures i == |s| || !IsSpace(s[i])
    decreases |s| - from
  {
    if from < |s| && IsSpace(s[from]) then SkipSpace(s, from + 1) else from
  }

  /** Where `s.strip()` ends: one past the last non-whitespace character
      before `upto` and at or after `lo`, or `lo` when there is none. */
  function SkipSpaceBack(s: string, lo: nat, upto: nat): (j: nat)
    requires lo <= upto <= |s|
    ensures lo <= j <= upto
    ensures forall k :: j <= k < upto ==> IsSpace(s[k])
    ensures j == lo || !IsSpace(s[j - 1])
    decreases upto - lo
  {
    if lo < upto && IsSpace(s[upto - 1]) then SkipSpaceBack(s, lo, upto - 1) else upto
  }

  /** `s.strip()`: the slice of `s` between its leading and its trailing
      whitespace. It is empty exactly when `s` is all whitespace, and
      otherwise starts and ends with a non-whitespace character. */
  function Strip(s: string): (r: string)
    ensures exists i, j :: 0 <= i <= j <= |s| && r == s[i..j] &&
              (forall k :: 0 <= k < i ==> IsSpace(s[k])) &&
              (forall k :: j <= k < |s| ==> IsSpace(s[k]))
    ensures |r| <= |s|
    ensures |r| == 0 <==> forall k :: 0 <= k < |s| ==> IsSpace(s[k])
    ensures |r| == 0 || (!IsSpace(r[0]) && !IsSpace(r[|r| - 1]))
  {
    var i := SkipSpace(s, 0);
    var j := SkipSpaceBack(s, i, |s|);
    s[i..j]
  }

  /** A text that starts and ends with non-whitespace is left alone by `strip`. */
  lemma StripUnpadded(s: string)
    requires s == "" || (!IsSpace(s[0]) && !IsSpace(s[|s| - 1]))
    ensures Strip(s) == s
  {
  }

  /** Stripping keeps a prefix that starts and ends with non-whitespace. */
  lemma StripKeepsPrefix(p: string, s: string)
    requires p != "" && p <= s
    requires !IsSpace(p[0]) && !IsSpace(p[|p| - 1])
    ensures p <= Strip(s)
  {
    assert s[0] == p[0] && s[|p| - 1] == p[|p| - 1];
    assert SkipSpace(s, 0) == 0;
    var j := SkipSpaceBack(s, 0, |s|);
    assert j >= |p|;
  }

  /** Stripping a text that starts with non-whitespace and carries only
      whitespace after its last non-whitespace character removes exactly
      that trailing whitespace. */
  lemma StripTrailing(u: string, w: string)
    requires u != "" && !IsSpace(u[0]) && !IsSpace(u[|u| - 1])
    requires forall k :: 0 <= k < |w| ==> IsSpace(w[k])
    ensures Strip(u + w) == u
  {
    var s := u + w;
    assert s[0] == u[0] && s[|u| - 1] == u[|u| - 1];
    assert SkipSpace(s, 0) == 0;
    assert forall k :: |u| <= k < |s| ==> IsSpace(s[k]) by {
      forall k | |u| <= k < |s| ensures IsSpace(s[k]) {
        assert s[k] == w[k - |u|];
      }
    }
    SkipSpaceBackPast(s, 0, |s|, |u|);
    assert s[..|u|] == u;
  }

  /** Skipping back over whitespace stops at the first non-whitespace
      character seen, when everything after it is whitespace. */
  lemma {:induction false} SkipSpaceBackPast(s: string, lo: nat, upto: nat, m: nat)
    requires lo < m <= upto <= |s|
    requires !IsSpace(s[m - 1])
    requires forall k :: m <= k < upto ==> IsSpace(s[k])
    ensures SkipSpaceBack(s, lo, upto) == m
    decreases upto - lo
  {
    if upto > m {
      SkipSpaceBackPast(s, lo, upto - 1, m);
    }
  }

  /** `os.path.basename` on a POSIX path: the text after the last `/`,
      that is the longest suffix that holds no `/`. */
  function Basename(path: string): (name: string)
    ensures |name| <= |path|
    ensures forall k :: 0 <= k < |name| ==> name[k] == path[|path| - |name| + k]
    ensures '/' !in name
    ensures |name| < |path| ==> path[|path| - |name| - 1] == '/'
    decreases |path|
  {
    if |path| == 0 || path[|path| - 1] == '/' then ""
    else Basename(path[..|path| - 1]) + [path[|path| - 1]]
  }
}
