// The three minifiers: chains of regular-expression replacements, each
// modelled pass by pass, with the shape of their output and what they keep of
// their input.
module Minifier {
  import opened Text
  import opened Passes
  import opened Spacing
  import opened Lines
  import opened Chunking

  /** The characters the CSS minifier strips whitespace around. */
  const CssDelimiters: set<char> := {'{', '}', ';', ':', ','}

  // The operator character class of the JavaScript minifier's last
  // replace: braces, semicolon, comma, `= + - * / < > ! & | ? :`.
  const JsOperators: set<char> :=
    {'{', '}', ';', ',', '=', '+', '-', '*', '/', '<', '>', '!', '&', '|', '?', ':'}

  /** `minifyHTML`: comments out, gaps between tags closed, trimmed, runs of
      whitespace collapsed to one space. The result has no whitespace at
      either end, no two whitespace characters in a row and no whitespace
      between `>` and `<`; apart from whitespace it is the input with its
      comments removed. Its runs of non-whitespace characters are those of
      the input without comments, except that a run ending in `>` and the
      next one starting with `<` become one: every other whitespace gap
      between two runs stays, as a single whitespace character. */
  function MinifyHTML(html: string): (r: string)
    ensures Trimmed(r) && NoDoubleSpace(r) && NoTagGap(r)
    ensures NonSpace(r) == NonSpace(StripBlocks(html, "<!--", "-->"))
    ensures Chunks(r) == Glue(Chunks(StripBlocks(html, "<!--", "-->")), TagGap)
  {
    var noComments := StripBlocks(html, "<!--", "-->");
    var closed := CloseTagGaps(noComments);
    var trimmed := Trim(closed);
    CloseTagGapsNoGap(noComments);
    TrimKeepsNoTagGap(closed);
    CollapseKeepsNoTagGap(trimmed);
    TrimSpec(closed);
    CollapseKeepsTrimmed(trimmed);
    CollapseNoDoubleSpace(trimmed);
    CloseTagGapsKeepsNonSpace(noComments);
    TrimKeepsNonSpace(closed);
    CollapseKeepsNonSpace(trimmed);
    CloseTagGapsChunks(noComments);
    TrimChunks(closed);
    CollapseChunks(trimmed);
    Collapse(trimmed)
  }

  /** Two words separated by a run of whitespace stay separated by one space. */
  lemma {:induction false} MinifyHTMLKeepsGap()
    ensures Chunks(MinifyHTML("a  b")) == ["a", "b"]
    ensures MinifyHTML("a  b") != "ab"
  {
    var t := "a  b";
    assert t == ['a'] + " " + " " + "b";
    assert StripBlocks("b", "<!--", "-->") == "b";
    assert StripBlocks(" b", "<!--", "-->") == " b";
    assert StripBlocks("  b", "<!--", "-->") == "  b";
    assert StripBlocks(t, "<!--", "-->") == t;
    ChunksCons('b', []);
    ChunksCons(' ', "b");
    ChunksCons(' ', " b");
    ChunksCons('a', "  b");
    assert Chunks(t) == [['a'], "b"];
    assert Glue([['a'], "b"], TagGap) == ["a", "b"];
    ChunksCons('b', []);
    ChunksCons('a', "b");
  }

  /** One whitespace-around-`d` replace of the CSS minifier, after earlier ones
      for the delimiters `done`: whitespace is gone around `d` and stays gone
      around `done`, and nothing but whitespace is removed. */
  lemma {:induction false} CssStep(t: string, done: set<char>, d: char)
    requires !IsSpace(d)
    requires NoSpaceAround(t, done)
    ensures NoSpaceAround(StripAround(t, {d}), done + {d})
    ensures NonSpace(StripAround(t, {d})) == NonSpace(t)
  {
    StripAroundClears(t, {d});
    StripAroundKeepsSpaceAround(t, {d}, done);
    SpaceAroundUnion(StripAround(t, {d}), done, {d});
    StripAroundKeepsNonSpace(t, {d});
  }

  /** The five delimiter passes of the CSS minifier, in the source's order.
      Together they join two neighbouring runs of non-whitespace characters
      exactly when one of them touches a delimiter. */
  function CssDelimiterPasses(t: string): (r: string)
    ensures NoSpaceAround(r, CssDelimiters)
    ensures NonSpace(r) == NonSpace(t)
    ensures Chunks(r) == Glue(Chunks(t), Around(CssDelimiters))
  {
    var a1 := StripAround(t, {'{'});
    var a2 := StripAround(a1, {'}'});
    var a3 := StripAround(a2, {';'});
    var a4 := StripAround(a3, {':'});
    var a5 := StripAround(a4, {','});
    var none: set<char> := {};
    var d1 := none + {'{'};
    var d2 := d1 + {'}'};
    var d3 := d2 + {';'};
    var d4 := d3 + {':'};
    assert NoSpaceAround(t, none);
    CssStep(t, none, '{');
    CssStep(a1, d1, '}');
    CssStep(a2, d2, ';');
    CssStep(a3, d3, ':');
    CssStep(a4, d4, ',');
    assert d4 + {','} == CssDelimiters;
    var cs := Chunks(t);
    assert d1 == {'{'};
    StripAroundChunks(t, {'{'});
    StripAroundChunks(a1, {'}'});
    GlueTwice(cs, d1, {'}'});
    StripAroundChunks(a2, {';'});
    GlueTwice(cs, d2, {';'});
    StripAroundChunks(a3, {':'});
    GlueTwice(cs, d3, {':'});
    StripAroundChunks(a4, {','});
    GlueTwice(cs, d4, {','});
    a5
  }

  /** `minifyCSS`: comments out, whitespace around `{ } ; : ,` removed, `;`
      before `}` dropped, runs of whitespace collapsed, trimmed. The result
      has no whitespace at either end, no two whitespace characters in a row
      and none next to a delimiter; apart from whitespace and semicolons it
      is the input with its comments removed. Its runs of non-whitespace
      characters are those of the input without comments, two neighbours
      joined exactly when one touches a delimiter, each with its `;` before
      `}` dropped: every other whitespace gap between two runs stays, as a
      single whitespace character. */
  function MinifyCSS(css: string): (r: string)
    ensures Trimmed(r) && NoDoubleSpace(r) && NoSpaceAround(r, CssDelimiters)
    ensures Erase(NonSpace(r), ';') == Erase(NonSpace(StripBlocks(css, "/*", "*/")), ';')
    ensures Chunks(r) == DropEach(Glue(Chunks(StripBlocks(css, "/*", "*/")), Around(CssDelimiters)))
  {
    var noComments := StripBlocks(css, "/*", "*/");
    var stripped := CssDelimiterPasses(noComments);
    var dropped := DropSemicolons(stripped);
    var collapsed := Collapse(dropped);
    DropSemicolonsKeepsSpaceAround(stripped, CssDelimiters);
    CollapseKeepsSpaceAround(dropped, CssDelimiters);
    TrimKeepsSpaceAround(collapsed, CssDelimiters);
    CollapseNoDoubleSpace(dropped);
    TrimKeepsNoDoubleSpace(collapsed);
    TrimSpec(collapsed);
    TrimKeepsNonSpace(collapsed);
    CollapseKeepsNonSpace(dropped);
    DropSemicolonsKeepsText(stripped);
    DropSemicolonsChunks(stripped);
    CollapseChunks(dropped);
    TrimChunks(collapsed);
    Trim(collapsed)
  }

  /** Dropping semicolons leaves the other non-whitespace characters. */
  lemma {:induction false} DropSemicolonsKeepsText(t: string)
    ensures Erase(NonSpace(DropSemicolons(t)), ';') == Erase(NonSpace(t), ';')
  {
    EraseNonSpace(DropSemicolons(t), ';');
    DropSemicolonsKeepsRest(t);
    EraseNonSpace(t, ';');
  }

  /** `minifyJS`: line comments out (unless right after `:`), block comments
      out, every line trimmed and the non-empty ones joined, runs of
      whitespace collapsed, whitespace around operators removed, trimmed.
      The result is one line with no whitespace at either end, no two
      whitespace characters in a row and none next to an operator; apart
      from whitespace it is the input with its comments removed. */
  function MinifyJS(js: string): (r: string)
    ensures Trimmed(r) && NoDoubleSpace(r) && NoSpaceAround(r, JsOperators)
    ensures '\n' !in r
    ensures NonSpace(r) == NonSpace(StripBlocks(StripLineComments(js, false), "/*", "*/"))
  {
    var noComments := StripBlocks(StripLineComments(js, false), "/*", "*/");
    var joined := JoinLines(noComments);
    var collapsed := Collapse(joined);
    JoinLinesNewlineFree(noComments);
    CollapseKeepsNewlineFree(joined);
    CollapseNoDoubleSpace(joined);
    JoinLinesKeepsNonSpace(noComments);
    CollapseKeepsNonSpace(joined);
    OperatorPass(collapsed);
    Trim(StripOperators(collapsed))
  }

  /** The JavaScript minifier's last replace: whitespace around an operator
      goes, the operator stays. */
  function StripOperators(t: string): (r: string) {
    assert NoSpaceIn(JsOperators);
    StripAround(t, JsOperators)
  }

  /** The last two passes of the JavaScript minifier, removing whitespace
      around operators and trimming, keep a single line without doubled
      whitespace and clear the whitespace next to operators and at both
      ends. */
  lemma {:induction false} OperatorPass(t: string)
    requires NoDoubleSpace(t) && '\n' !in t
    ensures Trimmed(Trim(StripOperators(t)))
    ensures NoDoubleSpace(Trim(StripOperators(t)))
    ensures NoSpaceAround(Trim(StripOperators(t)), JsOperators)
    ensures '\n' !in Trim(StripOperators(t))
    ensures NonSpace(Trim(StripOperators(t))) == NonSpace(t)
  {
    assert NoSpaceIn(JsOperators);
    var stripped := StripOperators(t);
    StripAroundKeepsNewlineFree(t, JsOperators);
    TrimKeepsNewlineFree(stripped);
    StripAroundKeepsNoDoubleSpace(t, JsOperators);
    TrimKeepsNoDoubleSpace(stripped);
    StripAroundClears(t, JsOperators);
    TrimKeepsSpaceAround(stripped, JsOperators);
    TrimSpec(stripped);
    StripAroundKeepsNonSpace(t, JsOperators);
    TrimKeepsNonSpace(stripped);
  }
}
