/** Paths as sequences of segments, and the splitting on `/` and `\` that the
    resolver applies to its base directory and to the module name. */
module Paths {
  /** A filesystem path, kept as its sequence of segments. Joining paths is
      concatenation; `.` and `..` are not normalised. */
  type Path = seq<string>

  /** The character class `[\\\/]` of the resolver's split. */
  predicate IsSeparator(c: char) {
    c == '/' || c == '\\'
  }

  predicate HasSeparator(s: string) {
    exists i :: 0 <= i < |s| && IsSeparator(s[i])
  }

  predicate StartsWith(s: string, prefix: string) {
    prefix <= s
  }

  predicate EndsWith(s: string, suffix: string) {
    |suffix| <= |s| && s[|s| - |suffix|..] == suffix
  }

  /** `s.split(/[\\\/]/)`: the pieces between separators, empty ones included. */
  function Split(s: string): (r: seq<string>)
    ensures |r| >= 1
    decreases |s|
  {
    if s == [] then [""]
    else
      var rest := Split(s[1..]);
      if IsSeparator(s[0]) then [""] + rest
      else [[s[0]] + rest[0]] + rest[1..]
  }

  /** `segs.join(sep)`. */
  function Join(segs: seq<string>, sep: char): string
    requires |segs| >= 1
    decreases |segs|
  {
    if |segs| == 1 then segs[0] else segs[0] + [sep] + Join(segs[1..], sep)
  }

  /** `s` with every backslash written as a slash. */
  function SlashesForBackslashes(s: string): string
    decreases |s|
  {
    if s == [] then [] else [if IsSeparator(s[0]) then '/' else s[0]] + SlashesForBackslashes(s[1..])
  }

  /** A name splits into more than one piece exactly when it holds a separator. */
  lemma {:induction false} SplitCount(s: string)
    ensures |Split(s)| > 1 <==> HasSeparator(s)
    decreases |s|
  {
    if s != [] {
      SplitCount(s[1..]);
      if !IsSeparator(s[0]) {
        if HasSeparator(s) {
          var i :| 0 <= i < |s| && IsSeparator(s[i]);
          assert IsSeparator(s[1..][i - 1]);
        }
        if HasSeparator(s[1..]) {
          var i :| 0 <= i < |s[1..]| && IsSeparator(s[1..][i]);
          assert IsSeparator(s[i + 1]);
        }
      } else {
        assert IsSeparator(s[0]);
      }
    }
  }

  /** No piece of a split holds a separator. */
  lemma {:induction false} SplitPiecesHaveNoSeparator(s: string)
    ensures forall k :: 0 <= k < |Split(s)| ==> !HasSeparator(Split(s)[k])
    decreases |s|
  {
    if s != [] {
      SplitPiecesHaveNoSeparator(s[1..]);
      var rest := Split(s[1..]);
      if !IsSeparator(s[0]) {
        var first := [s[0]] + rest[0];
        assert !HasSeparator(first) by {
          forall i | 1 <= i < |first| ensures !IsSeparator(first[i]) {
            assert first[i] == rest[0][i - 1];
          }
        }
        assert Split(s)[0] == first;
        assert forall k :: 1 <= k < |Split(s)| ==> Split(s)[k] == rest[k];
      } else {
        assert !HasSeparator("");
        assert forall k :: 1 <= k < |Split(s)| ==> Split(s)[k] == rest[k - 1];
      }
    }
  }

  /** Splitting a string that starts with a separator-free piece `a`. */
  lemma {:induction false} SplitAfterPiece(a: string, rest: string)
    requires !HasSeparator(a)
    ensures Split(a + rest) == [a + Split(rest)[0]] + Split(rest)[1..]
    decreases |a|
  {
    if a == [] {
      var r := Split(rest);
      assert a + rest == rest;
      assert a + r[0] == r[0];
      assert [r[0]] + r[1..] == r;
    } else {
      var a' := a[1..];
      assert !IsSeparator(a[0]);
      assert !HasSeparator(a') by {
        forall i | 0 <= i < |a'| ensures !IsSeparator(a'[i]) {
          assert a'[i] == a[i + 1];
        }
      }
      SplitAfterPiece(a', rest);
      assert (a + rest)[1..] == a' + rest;
      assert [a[0]] + (a' + Split(rest)[0]) == a + Split(rest)[0];
    }
  }

  /** Joining the pieces of a split with `/` gives the string back, with its
      backslashes written as slashes. */
  lemma {:induction false} JoinSplit(s: string)
    ensures Join(Split(s), '/') == SlashesForBackslashes(s)
    decreases |s|
  {
    if s != [] {
      JoinSplit(s[1..]);
      var rest := Split(s[1..]);
      if IsSeparator(s[0]) {
        assert Split(s) == [""] + rest;
        assert ([""] + rest)[1..] == rest;
      } else {
        assert Split(s) == [[s[0]] + rest[0]] + rest[1..];
        if |rest| > 1 {
          assert ([[s[0]] + rest[0]] + rest[1..])[1..] == rest[1..];
        }
      }
    }
  }

  /** Splitting pieces joined with `/` gives the pieces back, when no piece
      holds a separator. */
  lemma {:induction false} SplitJoin(segs: seq<string>)
    requires |segs| >= 1
    requires forall k :: 0 <= k < |segs| ==> !HasSeparator(segs[k])
    ensures Split(Join(segs, '/')) == segs
    decreases |segs|
  {
    if |segs| == 1 {
      SplitAfterPiece(segs[0], "");
      assert segs[0] + "" == segs[0];
    } else {
      var tail := Join(segs[1..], '/');
      SplitJoin(segs[1..]);
      assert IsSeparator('/');
      assert Split("/" + tail) == [""] + Split(tail);
      SplitAfterPiece(segs[0], "/" + tail);
      assert segs[0] + [ '/' ] + tail == segs[0] + ("/" + tail);
      assert segs[0] + "" == segs[0];
      assert [segs[0]] + segs[1..] == segs;
    }
  }
}
