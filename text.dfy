/** The JavaScript string and array operations the uploader relies on:
    `String.prototype.split` with a one-character separator, `pop()` on its
    result, and `Array.prototype.join` with a one-character separator. */
module Text {

  /** `parts.join(sep)`: the parts with one `sep` between neighbours. The
      text starts with the first part, a separator follows it when there are
      more parts, and there is at least one character per separator; that
      splitting the text gives the parts back is `SplitOfJoin`. */
  function Join(parts: seq<string>, sep: char): (r: string)
    ensures |parts| > 0 ==> parts[0] <= r
    ensures |parts| > 1 ==> |r| > |parts[0]| && r[|parts[0]|] == sep
    ensures |r| >= |parts| - 1
  {
    if |parts| == 0 then ""
    else if |parts| == 1 then parts[0]
    else parts[0] + [sep] + Join(parts[1..], sep)
  }

  /** `s.split(sep)`: the maximal runs of `s` between separators. There is
      always at least one part, none holds a separator, and joining the parts
      back gives `s`. */
  function Split(s: string, sep: char): (parts: seq<string>)
    ensures |parts| >= 1
    ensures forall k :: 0 <= k < |parts| ==> sep !in parts[k]
    ensures Join(parts, sep) == s
  {
    if |s| == 0 then [""]
    else
      var rest := Split(s[1..], sep);
      if s[0] == sep then
        assert Join([""] + rest, sep) == [sep] + Join(rest, sep) by {
          assert ([""] + rest)[1..] == rest;
        }
        [""] + rest
      else
        var parts := [[s[0]] + rest[0]] + rest[1..];
        assert Join(parts, sep) == [s[0]] + Join(rest, sep) by {
          if |rest| > 1 {
            assert parts[1..] == rest[1..];
          }
        }
        parts
  }

  /** `s.split(sep).pop()`: the text after the last separator of `s`, or the
      whole of `s` when it holds none. */
  function LastSegment(s: string, sep: char): (r: string)
    ensures sep !in r
    ensures |r| <= |s| && r == s[|s| - |r|..]
    ensures |r| == |s| || s[|s| - |r| - 1] == sep
  {
    var parts := Split(s, sep);
    JoinEndsWithLast(parts, sep);
    parts[|parts| - 1]
  }

  /** A joined string ends with its last part, which follows a separator
      whenever there is more than one part. */
  lemma {:induction false} JoinEndsWithLast(parts: seq<string>, sep: char)
    requires |parts| >= 1
    ensures var j, last := Join(parts, sep), parts[|parts| - 1];
      |last| <= |j| && j[|j| - |last|..] == last &&
      (|parts| == 1 ==> j == last) &&
      (|parts| > 1 ==> |last| < |j| && j[|j| - |last| - 1] == sep)
  {
    if |parts| > 1 {
      var rest := parts[1..];
      JoinEndsWithLast(rest, sep);
      var j, jr, last := Join(parts, sep), Join(rest, sep), parts[|parts| - 1];
      assert rest[|rest| - 1] == last;
      assert j == parts[0] + [sep] + jr;
      var off := |parts[0]| + 1;
      assert j[off..] == jr;
      assert j[|j| - |last|..] == jr[|jr| - |last|..];
      if |rest| == 1 {
        assert j[|j| - |last| - 1] == j[off - 1];
      } else {
        assert j[|j| - |last| - 1] == jr[|jr| - |last| - 1];
      }
    }
  }

  /** For a separator-free word `w`, `s.split(sep).pop() == w` exactly when `s`
      is `w` itself or ends with a separator followed by `w`. */
  lemma LastSegmentIs(s: string, sep: char, w: string)
    requires sep !in w
    ensures LastSegment(s, sep) == w <==>
      s == w || (|s| > |w| && s[|s| - |w| - 1..] == [sep] + w)
  {
    var r := LastSegment(s, sep);
    if r == w {
      if |r| < |s| {
        assert s[|s| - |w| - 1..] == [s[|s| - |w| - 1]] + s[|s| - |w|..];
      } else {
        assert s == s[0..];
      }
    }
    if s == w {
      assert |r| == |s|;
      assert s == s[0..];
    } else if |s| > |w| && s[|s| - |w| - 1..] == [sep] + w {
      var tail := s[|s| - |w| - 1..];
      assert tail[0] == sep && tail[1..] == w;
      assert forall k :: 0 <= k < |r| ==> r[k] == s[|s| - |r| + k];
      assert forall k :: 0 <= k < |tail| ==> tail[k] == s[|s| - |w| - 1 + k];
      assert |r| == |w|;
      assert r == s[|s| - |w|..] == s[|s| - |w| - 1..][1..];
    }
  }

  /** Helper: a part without a separator splits as itself. */
  lemma {:induction false} SplitWithoutSep(p: string, sep: char)
    requires sep !in p
    ensures Split(p, sep) == [p]
  {
    if |p| > 0 {
      assert forall k :: 1 <= k < |p| ==> p[k] == p[1..][k - 1];
      SplitWithoutSep(p[1..], sep);
      assert [p[0]] + p[1..] == p;
    }
  }

  /** Helper: splitting `p + sep + t` for a separator-free `p` yields `p`
      followed by the parts of `t`. */
  lemma {:induction false} SplitAfterPart(p: string, sep: char, t: string)
    requires sep !in p
    ensures Split(p + [sep] + t, sep) == [p] + Split(t, sep)
  {
    var s := p + [sep] + t;
    if |p| == 0 {
      assert s[1..] == t;
    } else {
      assert s[1..] == p[1..] + [sep] + t;
      assert forall k :: 1 <= k < |p| ==> p[k] == p[1..][k - 1];
      SplitAfterPart(p[1..], sep, t);
      assert [p[0]] + p[1..] == p;
    }
  }

  /** Round trip: splitting a join of separator-free parts gives the parts back. */
  lemma {:induction false} SplitOfJoin(parts: seq<string>, sep: char)
    requires |parts| >= 1
    requires forall k :: 0 <= k < |parts| ==> sep !in parts[k]
    ensures Split(Join(parts, sep), sep) == parts
  {
    if |parts| == 1 {
      SplitWithoutSep(parts[0], sep);
    } else {
      SplitOfJoin(parts[1..], sep);
      SplitAfterPart(parts[0], sep, Join(parts[1..], sep));
      assert [parts[0]] + parts[1..] == parts;
    }
  }
}
