// What whitespace separates: the maximal runs of non-whitespace characters of
// a text, and how each whitespace pass of the minifiers acts on them. Collapsing
// and trimming keep every run; closing tag gaps and stripping around
// delimiters join neighbouring runs, and only those the pattern names.
module Chunking {
  import opened Text
  import opened Passes
  import opened Spacing

  /** A non-empty run of non-whitespace characters. */
  predicate IsChunk(c: string) {
    c != [] && forall i :: 0 <= i < |c| ==> !IsSpace(c[i])
  }

  predicate AllChunks(cs: seq<string>) {
    forall i :: 0 <= i < |cs| ==> IsChunk(cs[i])
  }

  /** `t` starts with a non-whitespace character. */
  predicate StartsSolid(t: string) {
    t != [] && !IsSpace(t[0])
  }

  /** `c` added at the front of the first run. */
  function Attach(c: char, cs: seq<string>): (r: seq<string>)
    requires cs != []
  {
    [[c] + cs[0]] + cs[1..]
  }

  /** The maximal runs of non-whitespace characters of `t`, in order. */
  function Chunks(t: string): (cs: seq<string>)
    ensures AllChunks(cs)
    ensures StartsSolid(t) ==> cs != [] && cs[0][0] == t[0]
    decreases |t|
  {
    if t == [] then []
    else if IsSpace(t[0]) then Chunks(t[1..])
    else if StartsSolid(t[1..]) then
      var cs := Chunks(t[1..]);
      assert IsChunk([t[0]] + cs[0]);
      Attach(t[0], cs)
    else [[t[0]]] + Chunks(t[1..])
  }

  /** Chunks one character at a time: whitespace adds nothing, and a
      non-whitespace character joins the first run when it is next to it and
      starts a run of its own otherwise. */
  lemma {:induction false} ChunksCons(c: char, r: string)
    ensures Chunks([c] + r) == if IsSpace(c) then Chunks(r)
                              else if StartsSolid(r) then Attach(c, Chunks(r))
                              else [[c]] + Chunks(r)
  {
    assert ([c] + r)[1..] == r;
  }

  /** Texts with the same runs that both start, or both do not start, with a
      non-whitespace character keep the same runs behind any one character. */
  lemma {:induction false} ChunksCongruent(c: char, x: string, y: string)
    requires Chunks(x) == Chunks(y) && (StartsSolid(x) <==> StartsSolid(y))
    ensures Chunks([c] + x) == Chunks([c] + y)
  {
    ChunksCons(c, x);
    ChunksCons(c, y);
  }

  /** Leading whitespace does not matter. */
  lemma {:induction false} ChunksSkip(t: string, n: nat)
    requires n <= SpaceRun(t, 0)
    ensures Chunks(t[n..]) == Chunks(t)
    decreases n
  {
    if n > 0 {
      SpaceRunDrop(t, 1, 0);
      ChunksSkip(t[1..], n - 1);
      assert t[1..][n - 1..] == t[n..];
    }
  }

  /** The first run starts at the first non-whitespace character, and
      all-whitespace text has none. */
  lemma {:induction false} ChunksHead(t: string)
    ensures SpaceRun(t, 0) < |t| ==> Chunks(t) != [] && Chunks(t)[0][0] == t[SpaceRun(t, 0)]
    ensures SpaceRun(t, 0) == |t| ==> Chunks(t) == []
  {
    SpaceRunIsMaximal(t, 0);
    ChunksSkip(t, SpaceRun(t, 0));
  }

  /** Whitespace only has no runs. */
  lemma {:induction false} ChunksOfSpace(s: string)
    requires AllSpace(s)
    ensures Chunks(s) == []
    decreases |s|
  {
    if s != [] {
      ChunksOfSpace(s[1..]);
    }
  }

  /** Whitespace at either end does not matter. */
  lemma {:induction false} ChunksOfPadded(a: string, b: string, c: string)
    requires AllSpace(a) && AllSpace(c)
    ensures Chunks(a + b + c) == Chunks(b)
    decreases |a|
  {
    if a != [] {
      assert a + b + c == [a[0]] + (a[1..] + b + c);
      ChunksCons(a[0], a[1..] + b + c);
      ChunksOfPadded(a[1..], b, c);
    } else {
      assert a + b + c == b + c;
      ChunksTrailing(b, c);
    }
  }

  lemma {:induction false} ChunksTrailing(b: string, c: string)
    requires AllSpace(c)
    ensures Chunks(b + c) == Chunks(b)
    decreases |b|
  {
    if b == [] {
      assert b + c == c;
      ChunksOfSpace(c);
    } else {
      assert b + c == [b[0]] + (b[1..] + c);
      assert b == [b[0]] + b[1..];
      ChunksTrailing(b[1..], c);
      if b[1..] == [] {
        assert b[1..] + c == c;
      }
      ChunksCongruent(b[0], b[1..] + c, b[1..]);
    }
  }

  // ---------------------------------------------------------------------
  // Joining neighbouring runs

  /** When a pass removes the whitespace between two runs: `TagGap` between
      a `>` and a `<`, `Around(ds)` when either side is a character of `ds`. */
  datatype JoinRule = TagGap | Around(ds: set<char>)

  predicate Joins(rule: JoinRule, a: char, b: char) {
    match rule
    case TagGap => a == '>' && b == '<'
    case Around(ds) => a in ds || b in ds
  }

  /** The runs with every two neighbours the rule joins, the last character
      of one and the first of the next, made into one. */
  function Glue(cs: seq<string>, rule: JoinRule): (gs: seq<string>)
    requires AllChunks(cs)
    ensures AllChunks(gs) && |gs| <= |cs|
    ensures cs != [] ==> gs != [] && gs[0][0] == cs[0][0]
    decreases |cs|
  {
    if |cs| <= 1 then cs
    else
      var gs := Glue(cs[1..], rule);
      if Joins(rule, cs[0][|cs[0]| - 1], cs[1][0]) then
        assert IsChunk(cs[0] + gs[0]);
        [cs[0] + gs[0]] + gs[1..]
      else [cs[0]] + gs
  }

  /** Text put in front of the first run stays in front of the first glued
      run: joining looks at the first run's last character only. */
  lemma {:induction false} GluePrepend(x: string, cs: seq<string>, rule: JoinRule)
    requires IsChunk(x) && AllChunks(cs) && cs != []
    ensures AllChunks([x + cs[0]] + cs[1..])
    ensures var gs := Glue(cs, rule);
      Glue([x + cs[0]] + cs[1..], rule) == [x + gs[0]] + gs[1..]
  {
    var xs := [x + cs[0]] + cs[1..];
    assert IsChunk(x + cs[0]);
    assert AllChunks(xs);
    if |cs| > 1 {
      assert xs[1..] == cs[1..];
      assert xs[0][|xs[0]| - 1] == cs[0][|cs[0]| - 1];
      var gs := Glue(cs[1..], rule);
      if Joins(rule, cs[0][|cs[0]| - 1], cs[1][0]) {
        assert x + cs[0] + gs[0] == x + (cs[0] + gs[0]);
      }
    }
  }

  lemma {:induction false} GlueAttach(c: char, cs: seq<string>, rule: JoinRule)
    requires !IsSpace(c) && AllChunks(cs) && cs != []
    ensures AllChunks(Attach(c, cs))
    ensures Glue(Attach(c, cs), rule) == Attach(c, Glue(cs, rule))
  {
    assert IsChunk([c]);
    GluePrepend([c], cs, rule);
  }

  /** A one-character run followed by a run the rule joins it to. */
  lemma {:induction false} GlueJoin(c: char, cs: seq<string>, rule: JoinRule)
    requires !IsSpace(c) && AllChunks(cs) && cs != [] && Joins(rule, c, cs[0][0])
    ensures AllChunks([[c]] + cs)
    ensures Glue([[c]] + cs, rule) == Attach(c, Glue(cs, rule))
  {
    var xs := [[c]] + cs;
    assert IsChunk([c]);
    assert AllChunks(xs);
    assert xs[1..] == cs;
  }

  /** A one-character run followed by none the rule joins it to. */
  lemma {:induction false} GlueSeparate(c: char, cs: seq<string>, rule: JoinRule)
    requires !IsSpace(c) && AllChunks(cs)
    requires cs != [] ==> !Joins(rule, c, cs[0][0])
    ensures AllChunks([[c]] + cs)
    ensures Glue([[c]] + cs, rule) == [[c]] + Glue(cs, rule)
  {
    var xs := [[c]] + cs;
    assert IsChunk([c]);
    assert AllChunks(xs);
    assert xs[1..] == cs;
  }

  /** Joining around one class of characters and then around another is
      joining around both: a join keeps the outer characters of the runs. */
  lemma {:induction false} GlueTwice(cs: seq<string>, a: set<char>, b: set<char>)
    requires AllChunks(cs)
    ensures Glue(Glue(cs, Around(a)), Around(b)) == Glue(cs, Around(a + b))
    decreases |cs|
  {
    if |cs| > 1 {
      var gs := Glue(cs[1..], Around(a));
      GlueTwice(cs[1..], a, b);
      var last := cs[0][|cs[0]| - 1];
      if Joins(Around(a), last, cs[1][0]) {
        GluePrepend(cs[0], gs, Around(b));
      } else {
        var xs := [cs[0]] + gs;
        assert xs[1..] == gs;
      }
    }
  }

  // ---------------------------------------------------------------------
  // The passes

  /** `.replace(/\s{2,}/g, ' ')` keeps every run: it only rewrites
      whitespace, and never all of a run of it. */
  lemma {:induction false} CollapseChunks(t: string)
    ensures Chunks(Collapse(t)) == Chunks(t)
    decreases |t|
  {
    if t != [] {
      var n := SpaceRun(t, 0);
      if n >= 2 {
        CollapseChunks(t[n..]);
        ChunksCons(' ', Collapse(t[n..]));
        ChunksSkip(t, n);
      } else {
        CollapseChunks(t[1..]);
        assert t == [t[0]] + t[1..];
        ChunksCongruent(t[0], Collapse(t[1..]), t[1..]);
      }
    }
  }

  /** `trim()` keeps every run. */
  lemma {:induction false} TrimChunks(t: string)
    ensures Chunks(Trim(t)) == Chunks(t)
  {
    TrimSpec(t);
    var r := Trim(t);
    var i :| 0 <= i <= |t| - |r| && r == t[i..i + |r|] && AllSpace(t[..i]) && AllSpace(t[i + |r|..]);
    assert t == t[..i] + r + t[i + |r|..];
    ChunksOfPadded(t[..i], r, t[i + |r|..]);
  }

  /** `.replace(/>\s+</g, '><')` joins a run ending in `>` to the next run
      when that starts with `<`, and keeps every other run apart. */
  lemma {:induction false} CloseTagGapsChunks(t: string)
    ensures Chunks(CloseTagGaps(t)) == Glue(Chunks(t), TagGap)
    decreases |t|
  {
    if t != [] {
      var r := t[1..];
      assert t == [t[0]] + r;
      ChunksCons(t[0], r);
      if t[0] == '>' && LtAfterSpaces(r) {
        var m := 1 + SpaceRun(t, 1);
        GapEnd(t);
        CloseTagGapsChunks(t[m..]);
        ChunksCons('>', CloseTagGaps(t[m..]));
        SpaceRunDrop(t, 1, 0);
        ChunksSkip(r, SpaceRun(t, 1));
        assert r[SpaceRun(t, 1)..] == t[m..];
        GlueJoin('>', Chunks(t[m..]), TagGap);
      } else if IsSpace(t[0]) {
        CloseTagGapsChunks(r);
        ChunksCons(t[0], CloseTagGaps(r));
      } else {
        CloseTagGapsChunks(r);
        ChunksCons(t[0], CloseTagGaps(r));
        if StartsSolid(r) {
          GlueAttach(t[0], Chunks(r), TagGap);
        } else {
          if r != [] {
            ChunksHead(r);
          }
          GlueSeparate(t[0], Chunks(r), TagGap);
        }
      }
    }
  }

  /** Stripping whitespace around the delimiters of `ds` joins two
      neighbouring runs when either touches a delimiter, and keeps every
      other run apart. */
  lemma {:induction false} StripAroundChunks(t: string, ds: set<char>)
    requires NoSpaceIn(ds)
    ensures Chunks(StripAround(t, ds)) == Glue(Chunks(t), Around(ds))
    decreases |t|
  {
    if t != [] {
      var r := t[1..];
      assert t == [t[0]] + r;
      ChunksCons(t[0], r);
      if IsSpace(t[0]) && DelimAfter(t, ds) {
        StripAroundChunks(r, ds);
      } else if t[0] in ds {
        var m := 1 + SpaceRun(t, 1);
        StripAroundChunks(t[m..], ds);
        ChunksCons(t[0], StripAround(t[m..], ds));
        SpaceRunDrop(t, 1, 0);
        ChunksSkip(r, SpaceRun(t, 1));
        assert r[SpaceRun(t, 1)..] == t[m..];
        AfterDelim(t);
        if m < |t| {
          StripAroundHead(t[m..], ds);
          if m == 1 {
            GlueAttach(t[0], Chunks(r), Around(ds));
          } else {
            GlueJoin(t[0], Chunks(t[m..]), Around(ds));
          }
        } else {
          assert t[m..] == [];
          GlueSeparate(t[0], [], Around(ds));
        }
      } else if IsSpace(t[0]) {
        StripAroundChunks(r, ds);
        ChunksCons(t[0], StripAround(r, ds));
      } else {
        StripAroundChunks(r, ds);
        ChunksCons(t[0], StripAround(r, ds));
        if StartsSolid(r) {
          StripAroundHead(r, ds);
          GlueAttach(t[0], Chunks(r), Around(ds));
        } else if r != [] {
          StripAroundStart(r, ds);
          ChunksHead(r);
          if DelimAfter(r, ds) {
            GlueJoin(t[0], Chunks(r), Around(ds));
          } else {
            GlueSeparate(t[0], Chunks(r), Around(ds));
          }
        } else {
          GlueSeparate(t[0], [], Around(ds));
        }
      }
    }
  }

  /** `.replace(/;}/g, '}')` applied to each run. */
  function DropEach(cs: seq<string>): (ds: seq<string>)
    ensures |ds| == |cs|
  {
    if cs == [] then [] else [DropSemicolons(cs[0])] + DropEach(cs[1..])
  }

  /** `.replace(/;}/g, '}')` works inside the runs: `;}` never spans
      whitespace, and the `}` it keeps leaves every run non-empty. */
  lemma {:induction false} DropSemicolonsChunks(t: string)
    ensures Chunks(DropSemicolons(t)) == DropEach(Chunks(t))
    decreases |t|
  {
    if t != [] {
      var r := t[1..];
      assert t == [t[0]] + r;
      ChunksCons(t[0], r);
      DropSemicolonsChunks(r);
      if t[0] == ';' && |t| > 1 && t[1] == '}' {
        var cs := Chunks(r);
        assert ([';'] + cs[0])[1..] == cs[0];
        assert Attach(';', cs)[1..] == cs[1..];
        assert DropEach(cs) == [DropSemicolons(cs[0])] + DropEach(cs[1..]);
      } else {
        ChunksCons(t[0], DropSemicolons(r));
        if !IsSpace(t[0]) {
          var cs := Chunks(r);
          if StartsSolid(r) {
            assert ([t[0]] + cs[0])[1..] == cs[0];
            assert Attach(t[0], cs)[1..] == cs[1..];
            assert DropEach(cs) == [DropSemicolons(cs[0])] + DropEach(cs[1..]);
          } else {
            assert DropSemicolons([t[0]]) == [t[0]] + DropSemicolons([]) == [t[0]];
            assert ([[t[0]]] + cs)[1..] == cs;
            assert DropEach([[t[0]]] + cs) == [DropSemicolons([t[0]])] + DropEach(cs);
          }
        }
      }
    }
  }
}
