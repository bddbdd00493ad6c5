// The line passes of the JavaScript minifier: removing `//` comments that
// are not preceded by `:` (the multiline `(?<!:)\/\/.*$` replace), and
// splitting into lines, trimming each, dropping the empty ones and joining
// the rest with nothing between them.
module Lines {
  import opened Text
  import opened Passes

  // ---------------------------------------------------------------------
  // Line terminators

  /** The line terminators of `s`, in order. */
  function Breaks(s: string): (r: string)
    ensures |r| <= |s|
    decreases |s|
  {
    if s == [] then [] else (if IsLineTerminator(s[0]) then [s[0]] else []) + Breaks(s[1..])
  }

  lemma {:induction false} BreaksCons(c: char, r: string)
    ensures Breaks([c] + r) == (if IsLineTerminator(c) then [c] else []) + Breaks(r)
  {
    assert ([c] + r)[1..] == r;
  }

  lemma {:induction false} BreaksTail(s: string, i: nat)
    requires i < |s| && !IsLineTerminator(s[i])
    ensures Breaks(s[i + 1..]) == Breaks(s[i..])
  {
    assert s[i..] == [s[i]] + s[i + 1..];
    BreaksCons(s[i], s[i + 1..]);
  }

  /** How many characters from `i` on `.*` matches: everything up to the next
      line terminator or the end. */
  function LineRun(s: string, i: nat): (n: nat)
    requires i <= |s|
    ensures i + n <= |s|
    ensures i + n < |s| ==> IsLineTerminator(s[i + n])
    decreases |s| - i
  {
    if i < |s| && !IsLineTerminator(s[i]) then 1 + LineRun(s, i + 1) else 0
  }

  /** The rest of a line holds no line terminator. */
  lemma {:induction false} BreaksSkipLine(s: string, i: nat)
    requires i <= |s|
    ensures Breaks(s[i + LineRun(s, i)..]) == Breaks(s[i..])
    decreases |s| - i
  {
    if i < |s| && !IsLineTerminator(s[i]) {
      var n := LineRun(s, i + 1);
      assert LineRun(s, i) == 1 + n;
      BreaksSkipLine(s, i + 1);
      BreaksTail(s, i);
    }
  }

  // ---------------------------------------------------------------------
  // `.replace(/(?<!:)\/\/.*$/gm, '')`

  /** A comment starts at `k`: `//` there, and the character before it is
      not `:`. `afterColon` says whether the character before index 0 was a
      `:`; the look-behind reads the text being scanned, not the output. */
  predicate CommentStartAt(s: string, k: int, afterColon: bool) {
    && 0 <= k && k + 1 < |s| && s[k] == '/' && s[k + 1] == '/'
    && !(if k == 0 then afterColon else s[k - 1] == ':')
  }

  predicate NoCommentStart(s: string, afterColon: bool) {
    forall k :: 0 <= k < |s| ==> !CommentStartAt(s, k, afterColon)
  }

  /** At each position where a comment starts, everything up to the next
      line terminator (which is kept) goes; every other character is kept.
      The comment ends right before a line terminator, which no comment
      starts with, so the look-behind of the next match never sees a
      removed character. */
  function StripLineComments(t: string, afterColon: bool): (r: string)
    ensures t != [] && !CommentStartAt(t, 0, afterColon) ==> r != [] && r[0] == t[0]
    decreases |t|
  {
    if t == [] then []
    else if CommentStartAt(t, 0, afterColon) then
      var e := 2 + LineRun(t, 2);
      StripLineComments(t[e..], t[e - 1] == ':')
    else [t[0]] + StripLineComments(t[1..], t[0] == ':')
  }

  lemma {:induction false} NoCommentStartCons(c: char, r: string, afterColon: bool)
    requires NoCommentStart(r, c == ':')
    requires !(c == '/' && r != [] && r[0] == '/' && !afterColon)
    ensures NoCommentStart([c] + r, afterColon)
  {
    var s := [c] + r;
    forall k | 0 <= k < |s| ensures !CommentStartAt(s, k, afterColon) {
      if k > 0 {
        assert !CommentStartAt(r, k - 1, c == ':');
      }
    }
  }

  /** What precedes text starting with anything but `/` does not matter. */
  lemma {:induction false} NoCommentStartAnyPrefix(r: string, a: bool, b: bool)
    requires r == [] || r[0] != '/'
    requires NoCommentStart(r, a)
    ensures NoCommentStart(r, b)
  {
    forall k | 0 <= k < |r| ensures !CommentStartAt(r, k, b) {
      assert !CommentStartAt(r, k, a);
    }
  }

  /** No comment start is left in the output. */
  lemma {:induction false} StripLineCommentsClean(t: string, afterColon: bool)
    ensures NoCommentStart(StripLineComments(t, afterColon), afterColon)
    decreases |t|
  {
    if t != [] {
      if CommentStartAt(t, 0, afterColon) {
        var e := 2 + LineRun(t, 2);
        var out := StripLineComments(t[e..], t[e - 1] == ':');
        StripLineCommentsClean(t[e..], t[e - 1] == ':');
        NoCommentStartAnyPrefix(out, t[e - 1] == ':', afterColon);
      } else {
        StripLineCommentsClean(t[1..], t[0] == ':');
        NoCommentStartCons(t[0], StripLineComments(t[1..], t[0] == ':'), afterColon);
      }
    }
  }

  /** Text without comments is left as it is. */
  lemma {:induction false} StripLineCommentsUnchanged(t: string, afterColon: bool)
    requires NoCommentStart(t, afterColon)
    ensures StripLineComments(t, afterColon) == t
    decreases |t|
  {
    if t != [] {
      assert !CommentStartAt(t, 0, afterColon);
      var colon := t[0] == ':';
      forall k | 0 <= k < |t| - 1 ensures !CommentStartAt(t[1..], k, colon) {
        assert !CommentStartAt(t, k + 1, afterColon);
      }
      StripLineCommentsUnchanged(t[1..], colon);
    }
  }

  /** Removing comments twice is removing them once. */
  lemma {:induction false} StripLineCommentsIdempotent(t: string, afterColon: bool)
    ensures StripLineComments(StripLineComments(t, afterColon), afterColon) == StripLineComments(t, afterColon)
  {
    StripLineCommentsClean(t, afterColon);
    StripLineCommentsUnchanged(StripLineComments(t, afterColon), afterColon);
  }

  /** A comment holds no line terminator. */
  lemma {:induction false} CommentKeepsBreaks(t: string)
    requires |t| >= 2 && t[0] == '/' && t[1] == '/'
    ensures Breaks(t[2 + LineRun(t, 2)..]) == Breaks(t)
  {
    BreaksSkipLine(t, 2);
    BreaksTail(t, 1);
    BreaksTail(t, 0);
  }

  /** A comment goes up to its line's end; the line break stays. */
  lemma LineCommentRemoved()
    ensures StripLineComments("x//c\ny", false) == "x\ny"
  {
    var t := "x//c\ny";
    var u := t[1..];
    assert u == "//c\ny";
    assert !CommentStartAt(t, 0, false) && CommentStartAt(u, 0, false);
    assert LineRun(u, 3) == 0;
    assert LineRun(u, 2) == 1;
    assert u[3..] == "\ny";
  }

  /** A `//` right after `:`, as in a URL, is not a comment. */
  lemma UrlKept()
    ensures StripLineComments("a=\"http://x\"", false) == "a=\"http://x\""
  {
    var t := "a=\"http://x\"";
    forall k | 0 <= k < |t| ensures !CommentStartAt(t, k, false) {
      if k == 8 {
        assert t[k - 1] == ':';
      }
    }
    StripLineCommentsUnchanged(t, false);
  }

  /** Every line terminator is kept: comments are removed within their
      line. */
  lemma {:induction false} StripLineCommentsKeepsBreaks(t: string, afterColon: bool)
    ensures Breaks(StripLineComments(t, afterColon)) == Breaks(t)
    decreases |t|
  {
    if t != [] {
      if CommentStartAt(t, 0, afterColon) {
        var e := 2 + LineRun(t, 2);
        StripLineCommentsKeepsBreaks(t[e..], t[e - 1] == ':');
        CommentKeepsBreaks(t);
      } else {
        StripLineCommentsKeepsBreaks(t[1..], t[0] == ':');
        assert t == [t[0]] + t[1..];
        BreaksCons(t[0], t[1..]);
        BreaksCons(t[0], StripLineComments(t[1..], t[0] == ':'));
      }
    }
  }

  // ---------------------------------------------------------------------
  // `.split('\n').map(line => line.trim()).filter(line => line.length > 0).join('')`

  /** `lines.map(line => line.trim())`. */
  function TrimEach(lines: seq<string>): (r: seq<string>)
    ensures |r| == |lines|
    decreases |lines|
  {
    if lines == [] then [] else [Trim(lines[0])] + TrimEach(lines[1..])
  }

  /** `lines.filter(line => line.length > 0)`. */
  function NonBlank(lines: seq<string>): (r: seq<string>)
    ensures |r| <= |lines|
    decreases |lines|
  {
    if lines == [] then [] else (if lines[0] == [] then [] else [lines[0]]) + NonBlank(lines[1..])
  }

  /** `lines.join('')`. */
  function Concat(lines: seq<string>): (r: string)
    decreases |lines|
  {
    if lines == [] then [] else lines[0] + Concat(lines[1..])
  }

  /** The three steps on a list of lines, one line at a time. */
  function Joined(lines: seq<string>): (r: string) {
    Concat(NonBlank(TrimEach(lines)))
  }

  /** The JavaScript minifier's line handling. */
  function JoinLines(t: string): (r: string) {
    Joined(SplitOn(t, '\n'))
  }

  lemma {:induction false} JoinedCons(lines: seq<string>)
    requires lines != []
    ensures Joined(lines) == Trim(lines[0]) + Joined(lines[1..])
  {
    var ts := TrimEach(lines);
    assert ts[0] == Trim(lines[0]) && ts[1..] == TrimEach(lines[1..]);
    var nb := NonBlank(ts);
    if ts[0] == [] {
      assert nb == NonBlank(ts[1..]);
    } else {
      assert nb == [ts[0]] + NonBlank(ts[1..]);
      assert nb[1..] == NonBlank(ts[1..]);
      assert Concat(nb) == ts[0] + Concat(nb[1..]);
    }
  }

  /** Joined lines hold a line feed only if some line does. */
  lemma {:induction false} JoinedNewlineFree(lines: seq<string>)
    requires forall i :: 0 <= i < |lines| ==> '\n' !in lines[i]
    ensures '\n' !in Joined(lines)
    decreases |lines|
  {
    if lines != [] {
      JoinedCons(lines);
      TrimKeepsNewlineFree(lines[0]);
      assert forall i :: 0 <= i < |lines[1..]| ==> lines[1..][i] == lines[i + 1];
      JoinedNewlineFree(lines[1..]);
    }
  }

  /** Joining the trimmed lines removes whitespace only. */
  lemma {:induction false} JoinedKeepsNonSpace(lines: seq<string>)
    ensures NonSpace(Joined(lines)) == NonSpace(JoinWith(lines, '\n'))
    decreases |lines|
  {
    if lines != [] {
      JoinedCons(lines);
      NonSpaceConcat(Trim(lines[0]), Joined(lines[1..]));
      TrimKeepsNonSpace(lines[0]);
      JoinedKeepsNonSpace(lines[1..]);
      if |lines| == 1 {
        assert Joined(lines[1..]) == [];
      } else {
        var rest := JoinWith(lines[1..], '\n');
        assert JoinWith(lines, '\n') == lines[0] + (['\n'] + rest);
        NonSpaceConcat(lines[0], ['\n'] + rest);
        NonSpaceCons('\n', rest);
      }
    }
  }

  /** The joined text has no line feed. */
  lemma {:induction false} JoinLinesNewlineFree(t: string)
    ensures '\n' !in JoinLines(t)
  {
    JoinedNewlineFree(SplitOn(t, '\n'));
  }

  /** Joining the lines removes whitespace only. */
  lemma {:induction false} JoinLinesKeepsNonSpace(t: string)
    ensures NonSpace(JoinLines(t)) == NonSpace(t)
  {
    JoinedKeepsNonSpace(SplitOn(t, '\n'));
    JoinSplitOn(t, '\n');
  }
}
