# Packer and minifiers of a browser developer-tools site, in Dafny

This project models two pages of a small web toolbox.

The **JavaScript packer** (`packJS`, `unpackJS`, `unpackWithParams` in
`src/pages/PackerTool.tsx`) works in the style of Dean Edwards' packer.
- Packing collects every `\w+` token of the code, counts them and orders them by
  descending count (a stable sort).
- Each token gets an id. A token is replaced, as a whole word, by the base-62
  numeral of its id when that numeral is shorter than the token.
- The result is the packed text, escaped and wrapped in an `eval(function(p,a,c,k,e,d){…})`
  bootstrap template together with the `|`-joined dictionary.
- Unpacking recognises that template with a strict or an alternative regular
  expression, unescapes the payload, and puts each dictionary word back in
  place of `decode(id)`, from the highest id down to 0.

The **minifiers** (`minifyHTML`, `minifyCSS`, `minifyJS` in
`src/pages/MinifierTool.tsx`) are chains of regular-expression replacements,
`trim`, and a split / map / filter / join over lines.

The model follows the source's own shape.
- The loops of the packer are methods with loop invariants: `encode62`, the
  token scan, the substitution `forEach`, the fill loop, `packJS` and the
  `while (c--)` of `unpackWithParams`. Each is proved against a specification
  function.
- The unpacker's matching and the minifiers are functions.
- Every regular expression is a hand-written left-to-right scan. At each
  position the pattern either matches, and the scan resumes after the match,
  or the character is kept and the scan moves on by one.
- What a whitespace pass keeps is stated on the maximal runs of non-whitespace
  characters of a text. Collapsing and trimming keep every run. Closing tag gaps
  and stripping around delimiters join only the neighbouring runs their pattern
  names, so every other gap survives as one whitespace character.
- Text is `seq<char>`. Whitespace is JavaScript's `\s` set. Line terminators
  are `\n`, `\r`, U+2028 and U+2029.

Modules:

| module | file | contents |
|---|---|---|
| `Wrappers` | wrappers.dfy | Option, Result |
| `Text` | text.dfy | character classes, `trim`, decimal numerals, split/join on one character |
| `Words` | words.dfy | text as alternating gaps and `\w+` words; whole-word replacement |
| `Radix62` | base62.dfy | `encode62` |
| `Scan` | scan.dfy | token scan, first-seen order, counts, the stable frequency sort |
| `Packer` | packer.dfy | substitution, dictionary, escaping, template, `packJS` |
| `Unpacker` | unpacker.dfy | `decode`, unescaping, the unpack loop, both patterns, `unpackJS` |
| `PackedFormat` | format.dfy | how both patterns read the packer's own template |
| `RoundTrip` | roundtrip.dfy | what unpacking does to packed text; the counterexamples and corrections |
| `Passes` | passes.dfy | shapes of minified text, what a pass keeps, `trim`, block comments |
| `Spacing` | spacing.dfy | tag gaps, whitespace runs, whitespace around delimiters, `;}` |
| `Chunking` | chunks.dfy | the runs of non-whitespace characters of a text, and which of them each whitespace pass joins |
| `Lines` | lines.dfy | `//` comments and the line join of `minifyJS` |
| `Minifier` | minifier.dfy | the three minifiers |

## Model

| member | source | states |
|---|---|---|
| Radix62.Digit | src/pages/PackerTool.tsx:13 | the digit of value d (below 62) is a character of the `base62` table and a `\w` character |
| Radix62.AlphabetAt | src/pages/PackerTool.tsx:13 | the table has 62 characters and holds at position d the digit of value d |
| Radix62.DigitValue62 | src/pages/PackerTool.tsx:13 | reading a table character gives a value below 62 whose digit is that character |
| Radix62.Base62 | src/pages/PackerTool.tsx:15-23 | `encode62(n)` is non-empty and uses only table digits, so it is a `\w+` word; it has no leading `0` for n > 0; it is `"0"` exactly for n = 0; it is one digit exactly when n < 62 |
| Radix62.Value62OfBase62 | src/pages/PackerTool.tsx:15-23 | reading `encode62(n)` back in base 62 gives n |
| Radix62.Base62Injective | src/pages/PackerTool.tsx:15-23 | distinct ids get distinct numerals |
| Radix62.Base62LengthMonotone | src/pages/PackerTool.tsx:15-23 | a larger id never gets a shorter numeral |
| Radix62.Base62Step | src/pages/PackerTool.tsx:18-21 | the numeral of n > 0 is the numeral of n / 62 (dropped when that is 0) followed by the digit of n % 62 |
| Radix62.Encode62 | src/pages/PackerTool.tsx:15-23 | the loop that prepends `base62[num % 62]` and divides by 62 returns Base62(num) |
| Radix62.TableDigit | src/pages/PackerTool.tsx:19 | indexing the table at d gives the digit of value d |
| Words.RunLength | src/pages/PackerTool.tsx:26 | the longest prefix made only of word characters, or only of non-word characters |
| Words.Split | src/pages/PackerTool.tsx:26 | cuts text into alternating non-empty gaps and `\w+` words that join back to the text; `\b\w+\b` matches exactly the word pieces |
| Words.SplitJoin | src/pages/PackerTool.tsx:26 | the segmentation is unique: well-formed pieces are the segmentation of their own text |
| Words.TokensAreWords | src/pages/PackerTool.tsx:26 | every match of `\b\w+\b` is a `\w+` run |
| Words.Tokens | src/pages/PackerTool.tsx:26 | the matches of `\b\w+\b`, in order: the word pieces of Words.Split (definition); Words.TokensAreWords and Packer.SortedWords state their properties |
| Words.Rename | src/pages/PackerTool.tsx:50 | a renaming keeps every gap and the kind and position of every piece, and applies the map to every word |
| Words.RenameKeepsSegmentation | src/pages/PackerTool.tsx:50 | renaming words into words gives text whose segmentation is the renamed pieces |
| Words.RenameRename | src/pages/PackerTool.tsx:46-55 | two renamings in a row are the composed renaming |
| Words.RenameIdentity | src/pages/PackerTool.tsx:46-55 | a renaming that fixes every word changes nothing |
| Words.WordsOfRename | src/pages/PackerTool.tsx:26 | the words of a renamed text are the renamed words, in order |
| Words.RenameAgree | src/pages/PackerTool.tsx:46-55 | two renamings that agree on the words present give the same text |
| Words.ReplaceInIsRename | src/pages/PackerTool.tsx:50 | whole-word replacement of w by e is the renaming that swaps w for e and keeps other words |
| Words.ReplaceIn | src/pages/PackerTool.tsx:50 | whole-word replacement over the pieces (definition); Words.ReplaceInIsRename states that it is a renaming |
| Words.ReplaceWord | src/pages/PackerTool.tsx:50 | `s.replace(new RegExp('\\b' + w + '\\b', 'g'), e)` (definition, also line 111); Words.ReplaceWordKeepsSegmentation, Words.ReplaceAbsentWord and Words.ReplaceWordKeepsHead state what it does |
| Words.ReplaceWordKeepsSegmentation | src/pages/PackerTool.tsx:49-50 | replacing the whole word w by a word e renames exactly the tokens equal to w; separators are untouched |
| Words.ReplaceAbsentWord | src/pages/PackerTool.tsx:110-111 | text in which w is not a token is left as it is |
| Words.ReplaceWordKeepsHead | src/pages/PackerTool.tsx:110-111 | text starting with a non-word character still starts with it after a whole-word replacement |
| Scan.IndexOf | src/pages/PackerTool.tsx:34 | the position of the first occurrence of a listed token |
| Scan.FirstSeenSpec | src/pages/PackerTool.tsx:34-36 | the first-seen list holds every token of the input, once each, and nothing else |
| Scan.FirstSeenOrder | src/pages/PackerTool.tsx:34-36 | the first-seen list is in order of first occurrence |
| Scan.FirstSeen | src/pages/PackerTool.tsx:34-36 | the first-seen list is never longer than the token list; Scan.FirstSeenSpec and Scan.FirstSeenOrder state what it holds and in which order |
| Scan.Counts | src/pages/PackerTool.tsx:28-33 | the count map's keys are exactly the tokens, and each value is that token's number of occurrences |
| Scan.CountMap | src/pages/PackerTool.tsx:28-33 | the scan's map has no more keys than there are tokens; Scan.CountMapCounts states that its values are the numbers of occurrences |
| Scan.CountMapCounts | src/pages/PackerTool.tsx:33 | the counts the scan builds, one `get(w) + 1` at a time, are the numbers of occurrences |
| Scan.CountStep | src/pages/PackerTool.tsx:33 | one `set(w, get(w) + 1)` keeps the map counting the tokens seen so far |
| Scan.FirstSeenStep | src/pages/PackerTool.tsx:34-36 | a token is appended to the first-seen list exactly when it is not in it yet |
| Scan.CountsUnique | src/pages/PackerTool.tsx:33 | any map that counts the tokens is the token count map |
| Scan.ScanWords | src/pages/PackerTool.tsx:26-37 | the scan loop returns the first-seen list of the matches and their count map |
| Scan.InsertPermutes | src/pages/PackerTool.tsx:40 | one insertion step adds exactly the inserted token |
| Scan.InsertSorted | src/pages/PackerTool.tsx:40 | one insertion step keeps counts non-increasing |
| Scan.Insert | src/pages/PackerTool.tsx:40 | one insertion step adds one element; Scan.InsertPermutes and Scan.InsertSorted state which one and where |
| Scan.SortByCountSorted | src/pages/PackerTool.tsx:40 | the sorted tokens have non-increasing counts |
| Scan.SortByCountPermutes | src/pages/PackerTool.tsx:40 | the sort returns a permutation of its input |
| Scan.SortByCountStable | src/pages/PackerTool.tsx:40 | tokens with equal counts keep their relative order (`Array.prototype.sort` is stable) |
| Scan.SortByCount | src/pages/PackerTool.tsx:40 | the sort keeps the length; Scan.SortByCountSorted, Scan.SortByCountPermutes and Scan.SortByCountStable state that it is a stable descending sort |
| Scan.DistinctPermutation | src/pages/PackerTool.tsx:40 | sorting distinct tokens gives distinct tokens |
| Packer.SortedWords | src/pages/PackerTool.tsx:26-40 | the words the packer numbers are distinct, are exactly the tokens of the code, are `\w+` words, and have non-increasing counts |
| Packer.SingleCharacterKept | src/pages/PackerTool.tsx:48 | a one-character token is never replaced |
| Packer.Shortens | src/pages/PackerTool.tsx:48 | `encoded.length < word.length` (definition); Packer.SingleCharacterKept and Packer.EncoderStep state its consequences |
| Packer.PackedText | src/pages/PackerTool.tsx:46-55 | the code with every replaced token as its numeral (definition); Packer.SubstituteWords ties the loop to it, and RoundTrip.PackedTextSegmentation and PackedFormat.PackedTextKeepsNoQuoteCommaWord state its properties |
| Packer.EncoderStep | src/pages/PackerTool.tsx:48-50 | handling word i is one whole-word replacement of it by its numeral when that is strictly shorter, and nothing otherwise; no earlier replacement produces word i |
| Packer.HandleWord | src/pages/PackerTool.tsx:46-55 | one `forEach` turn, as a renaming of the code's pieces |
| Packer.SubstituteStep | src/pages/PackerTool.tsx:46-55 | one turn of the `forEach` keeps the loop's invariant: the text is the code with the words handled so far replaced |
| Packer.SubstituteWords | src/pages/PackerTool.tsx:46-55 | the dictionary equals the word list, and the packed text is the code with each token whose numeral is shorter replaced by that numeral, segmentation and separators unchanged |
| Packer.FillEmptySlots | src/pages/PackerTool.tsx:57-60 | the fill loop changes nothing, since every slot holds a string |
| Packer.DoubleBackslashes | src/pages/PackerTool.tsx:66 | doubling backslashes never shortens text and keeps which text has quotes |
| Packer.EscapeQuotes | src/pages/PackerTool.tsx:66 | every quote of the escaped text follows a backslash |
| Packer.Escape | src/pages/PackerTool.tsx:66 | every quote of the payload follows a backslash; quote-free text only has its backslashes doubled |
| Packer.EscapeQuotesNone | src/pages/PackerTool.tsx:66 | escaping quotes leaves quote-free text alone |
| Packer.PackJS | src/pages/PackerTool.tsx:9-69 | `packJS` returns "" for blank code, otherwise the template around the escaped packed text with the word count as radix and count and the `\|`-joined words |
| Packer.Suffix | src/pages/PackerTool.tsx:66 | the text after the payload (definition); PackedFormat.TailAt states what the strict pattern reads from it |
| Packer.Template | src/pages/PackerTool.tsx:66 | Packer.Prefix, the payload and Packer.Suffix (definition); PackedFormat.PrefixLayout, PackedFormat.TemplateNotBlank and PackedFormat.NumbersField state its layout |
| Packer.PackOutput | src/pages/PackerTool.tsx:9-69 | what `packJS` returns (definition); Packer.PackJS ties the method to it, and PackedFormat.PackBlank and PackedFormat.AsWrittenUnpackOfPack state its properties |
| PackedFormat.PackBlank | src/pages/PackerTool.tsx:10 | `packJS` returns "" exactly for blank code |
| PackedFormat.TemplateNotBlank | src/pages/PackerTool.tsx:66 | the template is never blank |
| PackedFormat.PrefixLayout | src/pages/PackerTool.tsx:66 | the template text before the payload is 326 characters: the preamble, the decoder body, then `('\\b'+e(c)…}('` |
| PackedFormat.TailAt | src/pages/PackerTool.tsx:66-76 | on the template's tail the strict pattern's tail captures the radix, the count and the words |
| PackedFormat.NumbersField | src/pages/PackerTool.tsx:66-76 | on the template the strict pattern captures the two numbers and the words |
| PackedFormat.CountField | src/pages/PackerTool.tsx:66-76 | on the template the strict pattern captures the count and the words |
| PackedFormat.WordsField | src/pages/PackerTool.tsx:66-76 | on the template the strict pattern's words capture is the `\|`-joined dictionary |
| PackedFormat.WordsHaveNoQuote | src/pages/PackerTool.tsx:63 | the `\|`-joined dictionary holds no quote |
| PackedFormat.UnescapeHead | src/pages/PackerTool.tsx:105 | unescaping text that starts with two backslashes and `b` gives text starting with a backslash |
| Unpacker.DecodeDigitBase62 | src/pages/PackerTool.tsx:99 | below 62 the digit `decode` writes is the base-62 table digit |
| Unpacker.DecodeDigit | src/pages/PackerTool.tsx:99 | one digit of `decode` (definition); Unpacker.DecodeDigitBase62 and Unpacker.Decode state its properties |
| Unpacker.Decode | src/pages/PackerTool.tsx:96-102 | below the radix `decode` gives one character (or an unmodelled code unit) |
| Unpacker.Unescaped | src/pages/PackerTool.tsx:105 | each of the two unescaping replaces, which turn a backslash followed by c into c, never lengthens text |
| Unpacker.Unescape | src/pages/PackerTool.tsx:105 | the quotes unescaped first, then the backslashes (definition); RoundTrip.EscapeRoundTrip states that it inverts the packer's escaping |
| Unpacker.UnpackStep | src/pages/PackerTool.tsx:108-112 | a missing or empty entry leaves the text as it is; a replacement only happens for a decodable `\w+` id |
| Unpacker.UnpackFrom | src/pages/PackerTool.tsx:107-113 | the `while (c--)` loop from id c down (definition); Unpacker.UnpackFromKeepsHead and RoundTrip.UnpackRestores state its properties |
| Unpacker.UnpackOutput | src/pages/PackerTool.tsx:94-116 | what `unpackWithParams` returns or throws (definition); Unpacker.UnpackWithParams ties the method to it, and RoundTrip.UnpackPackedText states when it gives back the code |
| Unpacker.UnpackWithParams | src/pages/PackerTool.tsx:94-116 | the `while (c--)` loop returns the specification UnpackOutput: unescape, then one step per id from c - 1 down to 0 |
| Unpacker.UnpackFromKeepsHead | src/pages/PackerTool.tsx:107-113 | the unpack loop changes words only, so a leading non-word character stays |
| Unpacker.UnpackSmallRadix | src/pages/PackerTool.tsx:101 | with radix 0 or 1, `decode` recurses without end on the first non-empty entry at or above the radix |
| Unpacker.DigitRunIsMaximal | src/pages/PackerTool.tsx:76 | a greedy `\d+` takes every digit and stops at the first non-digit |
| Unpacker.RunWithoutIsMaximal | src/pages/PackerTool.tsx:81 | a greedy `[^']+` takes every non-quote and stops at a quote |
| Unpacker.StrictWordsEndIsFirst | src/pages/PackerTool.tsx:76 | the lazy words capture ends at the first `'.split('\|'),N,{}))` |
| Unpacker.StrictTail | src/pages/PackerTool.tsx:76 | the strict pattern's tail captures two numerals after `',` |
| Unpacker.StrictWordsEnd | src/pages/PackerTool.tsx:76 | the end of the lazy words capture, when found, lies inside the text |
| Unpacker.StrictNumbers | src/pages/PackerTool.tsx:76 | the radix and count captures are numerals, starting at a digit |
| Unpacker.StrictCount | src/pages/PackerTool.tsx:76 | the count capture is a numeral |
| Unpacker.PayloadEndIsFirst | src/pages/PackerTool.tsx:76 | the lazy payload capture ends at the first position where the tail matches |
| Unpacker.PayloadEnd | src/pages/PackerTool.tsx:76 | the lazy payload capture ends where the tail of the pattern matches |
| Unpacker.StrictPayload | src/pages/PackerTool.tsx:76 | a payload capture exists exactly when the tail matches somewhere after it, and its numbers are numerals |
| Unpacker.StrictBody | src/pages/PackerTool.tsx:76 | after the preamble, the strict pattern captures numerals |
| Unpacker.StrictFrom | src/pages/PackerTool.tsx:76 | a match of the strict pattern needs the preamble |
| Unpacker.MatchStrict | src/pages/PackerTool.tsx:76-77 | `code.match(packedRegex)` captures numerals and needs the preamble |
| Unpacker.AltAt | src/pages/PackerTool.tsx:81 | the alternative pattern at a position needs the preamble there and captures a non-empty quote-free payload |
| Unpacker.AltNumbers | src/pages/PackerTool.tsx:81 | its numbers are numerals and its words are non-empty and quote-free |
| Unpacker.AltCount | src/pages/PackerTool.tsx:81 | the count is a numeral and the words are non-empty and quote-free |
| Unpacker.AltWords | src/pages/PackerTool.tsx:81 | the words capture is non-empty and quote-free |
| Unpacker.MatchAlt | src/pages/PackerTool.tsx:81-82 | `code.match(altRegex)` captures numerals and needs the preamble |
| Unpacker.AltFrom | src/pages/PackerTool.tsx:81 | a match of the alternative pattern captures numerals and needs the preamble |
| Unpacker.UnpackJS | src/pages/PackerTool.tsx:72-92 | `unpackJS` returns the specification UnpackJSOutput: blank gives "", the strict pattern first, then the alternative, otherwise the format error |
| Unpacker.UnpackCaptures | src/pages/PackerTool.tsx:88-91 | `unpackWithParams` on the captures (definition); PackedFormat.CorrectedUnpackOfTemplate states it on the packer's own output |
| Unpacker.UnpackJSWith | src/pages/PackerTool.tsx:72-92 | what `unpackJS` returns or throws, with the brace optional or required (definition); Unpacker.UnpackBlank, Unpacker.UnpackWithoutPreamble and PackedFormat.AsWrittenUnpackOfTemplate state its properties |
| Unpacker.UnpackJSOutput | src/pages/PackerTool.tsx:72-92 | `unpackJS` as written (definition); Unpacker.UnpackJS ties the method to it |
| Unpacker.UnpackBlank | src/pages/PackerTool.tsx:73 | blank input unpacks to "" |
| Unpacker.UnpackWithoutPreamble | src/pages/PackerTool.tsx:79-86 | non-blank input without the preamble throws the format error |
| RoundTrip.HalveDouble | src/pages/PackerTool.tsx:105 | unescaping backslashes undoes the packer's doubling of them |
| RoundTrip.UnescapeEscapeQuotes | src/pages/PackerTool.tsx:105 | unescaping quotes undoes escaping them |
| RoundTrip.EscapeRoundTrip | src/pages/PackerTool.tsx:105 | the unpacker's unescaping inverts the packer's escaping, for every text |
| RoundTrip.DecodeRadix62 | src/pages/PackerTool.tsx:96-102 | with radix 62, `decode` agrees with `encode62` on every id |
| RoundTrip.DecodeBelowRadix | src/pages/PackerTool.tsx:96-102 | below the radix and below 62, `decode` agrees with `encode62` |
| RoundTrip.DecodeCountRadixFrom62 | src/pages/PackerTool.tsx:66 | with the word count as radix, every id from 62 up to the count decodes to something other than its numeral (62 with count 63 gives `[`) |
| RoundTrip.RestoreStep | src/pages/PackerTool.tsx:111 | restoring id j turns the tokens that read as its numeral back into word j |
| RoundTrip.RestoreRename | src/pages/PackerTool.tsx:107-113 | restoring id j is one renaming of the pieces |
| RoundTrip.RestoreOne | src/pages/PackerTool.tsx:107-113 | one loop turn keeps the invariant "the text is the code with ids below j still encoded" |
| RoundTrip.UnpackRestores | src/pages/PackerTool.tsx:107-113 | the unpack loop gives back the code when the dictionary restores the words and no token collides with a numeral |
| RoundTrip.PackedTextSegmentation | src/pages/PackerTool.tsx:46-55 | the packed text has the code's segmentation with replaced words |
| RoundTrip.UnpackPackedText | src/pages/PackerTool.tsx:94-116 | `unpackWithParams` on the escaped packed text with a restoring dictionary gives back the code |
| RoundTrip.DictionaryRoundTrip | src/pages/PackerTool.tsx:63 | words without `\|`, joined with `\|`, split back into the same entries |
| RoundTrip.WordsHaveNoBar | src/pages/PackerTool.tsx:63 | no `\w+` word contains `\|` |
| RoundTrip.PackedParametersUnpack | src/pages/PackerTool.tsx:46-66 | as written, the payload, count and dictionary unpack to the code for at most 62 words and no collision |
| RoundTrip.CorrectedDictionary | src/pages/PackerTool.tsx:51-54 | the corrected dictionary has entry i equal to word i when it was replaced and "" otherwise |
| RoundTrip.CorrectedPackOutput | src/pages/PackerTool.tsx:46-66 | the packer with empty entries and radix 62 (definition); RoundTrip.CorrectedParametersUnpack and PackedFormat.CorrectedRoundTrip state that it round-trips |
| RoundTrip.CorrectedParametersUnpack | src/pages/PackerTool.tsx:46-66 | the corrected packer's parameters unpack to the code for any number of words, unless a token of the code is a replaced word's numeral |
| RoundTrip.SortedWordsOfXZero | src/pages/PackerTool.tsx:40 | the words of `x 0` are numbered `x`, `0` |
| RoundTrip.PackedTextOfXZero | src/pages/PackerTool.tsx:48 | neither word of `x 0` is replaced |
| RoundTrip.UnpackStepReplaces | src/pages/PackerTool.tsx:108-112 | a loop turn on a non-empty entry whose id decodes to a word is one whole-word replacement |
| RoundTrip.UnpackXZero | src/pages/PackerTool.tsx:107-113 | the loop with radix 2 and dictionary `x\|0` turns `x 0` into `x x` |
| RoundTrip.UnreplacedWordOverwritten | src/pages/PackerTool.tsx:53 | as written, packing `x 0` and unpacking its parameters gives `x x` |
| RoundTrip.SortedWordsOfOneThen | src/pages/PackerTool.tsx:40 | the words of `1 w` are numbered `1`, `w` |
| RoundTrip.PackedTextOfOneThen | src/pages/PackerTool.tsx:46-55 | in `1 w`, `1` is kept and `w` becomes `1`, giving `1 1` |
| RoundTrip.NumeralTokenCollides | src/pages/PackerTool.tsx:46-66 | for every word `w` of two or more characters, `1 w` packs to `1 1`, which unpacks to `w w` with the dictionary as written and with the corrected one |
| PackedFormat.StrictCaptureOfTemplate | src/pages/PackerTool.tsx:76 | on every packer output, the strict pattern as written matches and its payload capture starts with the 37 template characters after `RegExp('` |
| PackedFormat.AsWrittenUnpackOfTemplate | src/pages/PackerTool.tsx:72-92 | unpacking any packer output as written either fails or gives text starting with a backslash |
| PackedFormat.AsWrittenUnpackOfPack | src/pages/PackerTool.tsx:76 | `unpackJS(packJS(code))` never gives back non-blank code that does not start with a backslash |
| PackedFormat.CorrectedStrictCapture | src/pages/PackerTool.tsx:76 | with `\}` required, the strict pattern captures exactly the payload, the two numbers and the words |
| PackedFormat.CorrectedUnpackOfTemplate | src/pages/PackerTool.tsx:72-92 | with `\}` required, unpacking a packer output is `unpackWithParams` on its own parameters |
| PackedFormat.CorrectedRoundTrip | src/pages/PackerTool.tsx:9-116 | corrected packer and unpacker round-trip non-blank code in which no `'` is followed by `,` and a word character, unless a token is a replaced word's numeral |
| PackedFormat.PackedTextKeepsNoQuoteCommaWord | src/pages/PackerTool.tsx:46-55 | replacing tokens by numerals never puts a word character after a `'` and a `,`: code without that shape packs to text without it |
| PackedFormat.EscapeKeepsNoQuoteCommaWord | src/pages/PackerTool.tsx:66 | doubling backslashes and escaping quotes keep text free of a `'` followed by `,` and a word character |
| PackedFormat.NoTailInPayload | src/pages/PackerTool.tsx:76 | the tail `',(\d+),(\d+),'…` of the strict pattern cannot start inside a payload free of that shape when it follows the payload |
| PackedFormat.PayloadEndAt | src/pages/PackerTool.tsx:76 | for such a payload the lazy `(.*?)` capture ends exactly at the end of the payload |
| PackedFormat.AsWrittenCaptureStops | src/pages/PackerTool.tsx:76 | as written, when the tail also matches at the template's own `'` after `}(`, the payload capture is exactly the 37 template characters after `RegExp('` |
| PackedFormat.StrictCaptureCanStopAtTemplate | src/pages/PackerTool.tsx:66-76 | the payload `,1,1,`, which packing `,1,1,` writes and escaping leaves as it is, makes the strict pattern as written capture only those 37 template characters |
| Text.SpaceRunIsMaximal | src/pages/MinifierTool.tsx:26 | a greedy `\s*` takes every whitespace character and stops at the first other one |
| Text.TrimStartSpec | src/pages/MinifierTool.tsx:24 | the leading-whitespace cut removes a whitespace prefix and stops at a non-space |
| Text.TrimEndSpec | src/pages/MinifierTool.tsx:24 | the trailing-whitespace cut removes a whitespace suffix and stops at a non-space |
| Text.TrimSpec | src/pages/MinifierTool.tsx:24 | `trim()` is the infix left when leading and trailing whitespace go; it has no whitespace at either end; it is empty exactly for blank text |
| Text.Trim | src/pages/MinifierTool.tsx:24 | `trim()` never lengthens text; Text.TrimSpec states that it is the infix left without leading and trailing whitespace |
| Text.IsSpace | src/pages/MinifierTool.tsx:22 | JavaScript's `\s` set, which `trim()` also uses (definition); Text.SpaceRunIsMaximal, Text.TrimSpec and Chunking.Chunks are stated with it |
| Text.IsLineTerminator | src/pages/MinifierTool.tsx:49 | the characters `.` does not match and before which `$` matches in multiline mode (definition); Lines.LineRun and Lines.StripLineCommentsKeepsBreaks are stated with it |
| Text.ParseDecimalOfDecimal | src/pages/PackerTool.tsx:91 | `parseInt` reads back the decimal the template writes |
| Text.Decimal | src/pages/PackerTool.tsx:66 | the decimal the template writes is a non-empty run of digits with no leading zero |
| Text.SplitOn | src/pages/PackerTool.tsx:91 | `split` gives at least one piece and no piece holds the separator |
| Text.JoinSplitOn | src/pages/MinifierTool.tsx:53 | joining the pieces of `split(c)` with c gives the text back |
| Text.SplitOnJoin | src/pages/PackerTool.tsx:91 | splitting a join of separator-free pieces gives the pieces back |
| Passes.NonSpaceConcat | src/pages/MinifierTool.tsx:17-62 | the non-whitespace characters of a concatenation are those of its parts |
| Passes.EraseNonSpace | src/pages/MinifierTool.tsx:40 | dropping whitespace and dropping semicolons commute |
| Passes.SpaceAroundUnion | src/pages/MinifierTool.tsx:34-38 | no whitespace around the characters of two sets is none around their union |
| Passes.TrimKeepsNoDoubleSpace | src/pages/MinifierTool.tsx:43 | `trim()` keeps text free of double whitespace |
| Passes.TrimKeepsSpaceAround | src/pages/MinifierTool.tsx:43 | `trim()` keeps text free of whitespace next to delimiters |
| Passes.TrimKeepsNoTagGap | src/pages/MinifierTool.tsx:24 | `trim()` keeps text free of whitespace between `>` and `<` |
| Passes.TrimKeepsNewlineFree | src/pages/MinifierTool.tsx:54 | `trim()` keeps text free of line feeds |
| Passes.TrimKeepsNonSpace | src/pages/MinifierTool.tsx:24 | `trim()` removes whitespace only |
| Passes.FindFirst | src/pages/MinifierTool.tsx:20 | the search for a closer returns its first occurrence |
| Passes.StripBlocksRemovesShortest | src/pages/MinifierTool.tsx:20 | a comment runs from its opener to the first closer after it, and exactly that much is removed (also lines 32 and 51) |
| Passes.StripBlocksUnchanged | src/pages/MinifierTool.tsx:20 | text without an opener, or without a closer, is left alone |
| Passes.StripBlocks | src/pages/MinifierTool.tsx:20 | removing `open`…`close` blocks never lengthens text; Passes.StripBlocksRemovesShortest and Passes.StripBlocksUnchanged state what is removed (also lines 32 and 51) |
| Spacing.CloseTagGaps | src/pages/MinifierTool.tsx:22 | closing tag gaps keeps the first character |
| Spacing.CloseTagGapsNoGap | src/pages/MinifierTool.tsx:22 | after `.replace(/>\s+</g, '><')` no `>` is followed by whitespace and then `<` |
| Spacing.CloseTagGapsKeepsNonSpace | src/pages/MinifierTool.tsx:22 | closing tag gaps removes whitespace only |
| Spacing.CloseTagGapsLtAfter | src/pages/MinifierTool.tsx:22 | the output starts with optional whitespace and `<` exactly when the input does |
| Spacing.Collapse | src/pages/MinifierTool.tsx:26 | the output starts with whitespace exactly when the input does |
| Spacing.CollapseNoDoubleSpace | src/pages/MinifierTool.tsx:26 | after `.replace(/\s{2,}/g, ' ')` no two whitespace characters are adjacent |
| Spacing.CollapseUnchanged | src/pages/MinifierTool.tsx:26 | text without double whitespace is left alone |
| Spacing.CollapseIdempotent | src/pages/MinifierTool.tsx:26 | collapsing twice is collapsing once |
| Spacing.CollapseKeepsNonSpace | src/pages/MinifierTool.tsx:26 | collapsing removes whitespace only |
| Spacing.CollapseKeepsNoTagGap | src/pages/MinifierTool.tsx:26 | collapsing creates no whitespace between `>` and `<` |
| Spacing.CollapseKeepsSpaceAround | src/pages/MinifierTool.tsx:42 | collapsing creates no whitespace next to a delimiter |
| Spacing.CollapseLast | src/pages/MinifierTool.tsx:26 | the output ends with whitespace exactly when the input does |
| Spacing.CollapseKeepsTrimmed | src/pages/MinifierTool.tsx:26 | collapsing trimmed text gives trimmed text |
| Spacing.CollapseKeepsNewlineFree | src/pages/MinifierTool.tsx:58 | collapsing creates no line feed |
| Spacing.StripAroundStart | src/pages/MinifierTool.tsx:34 | stripping around delimiters gives text that starts with a delimiter exactly when the input starts with optional whitespace and one |
| Spacing.StripAroundClears | src/pages/MinifierTool.tsx:34-38 | after `.replace(/\s*d\s*/g, 'd')` no whitespace is next to a delimiter |
| Spacing.StripAroundKeepsSpaceAround | src/pages/MinifierTool.tsx:35-38 | a later delimiter pass keeps the earlier passes' delimiters clear |
| Spacing.StripAroundKeepsNoDoubleSpace | src/pages/MinifierTool.tsx:60 | stripping around operators creates no double whitespace |
| Spacing.StripAroundKeepsNewlineFree | src/pages/MinifierTool.tsx:60 | stripping around operators creates no line feed |
| Spacing.StripAroundKeepsNonSpace | src/pages/MinifierTool.tsx:34-38 | stripping around delimiters removes whitespace only |
| Spacing.StripAroundUnchanged | src/pages/MinifierTool.tsx:34-38 | text already clear around the delimiters is left alone |
| Spacing.StripAroundIdempotent | src/pages/MinifierTool.tsx:34-38 | stripping twice is stripping once |
| Spacing.StripAround | src/pages/MinifierTool.tsx:34-38 | `.replace(/\s*d\s*/g, 'd')` for the delimiters of a whitespace-free set (definition, also line 60); Spacing.StripAroundClears, Spacing.StripAroundKeepsNonSpace, Spacing.StripAroundUnchanged, Spacing.StripAroundIdempotent and Chunking.StripAroundChunks state what it does |
| Spacing.DropSemicolons | src/pages/MinifierTool.tsx:40 | the output starts with the input's first character, or with `}` where the input started `;}` |
| Spacing.DropSemicolonsKeepsRest | src/pages/MinifierTool.tsx:40 | `.replace(/;}/g, '}')` removes semicolons only |
| Spacing.DropSemicolonsUnchanged | src/pages/MinifierTool.tsx:40 | text without `;}` is left alone |
| Spacing.DropSemicolonsOnce | src/pages/MinifierTool.tsx:40 | `;;}` becomes `;}`: matches do not overlap and the scan does not go back |
| Spacing.DropSemicolonsKeepsSpaceAround | src/pages/MinifierTool.tsx:40 | dropping a semicolon creates no whitespace next to a delimiter when `;` is one |
| Lines.Breaks | src/pages/MinifierTool.tsx:49 | the line terminators of a text are no more than its characters |
| Lines.LineRun | src/pages/MinifierTool.tsx:49 | `.*` runs to the next line terminator or the end |
| Lines.BreaksSkipLine | src/pages/MinifierTool.tsx:49 | the rest of a line holds no line terminator |
| Lines.StripLineComments | src/pages/MinifierTool.tsx:49 | a text that does not start a comment keeps its first character |
| Lines.StripLineCommentsClean | src/pages/MinifierTool.tsx:49 | after `.replace(/(?<!:)\/\/.*$/gm, '')` no `//` is left that is not right after `:` |
| Lines.StripLineCommentsUnchanged | src/pages/MinifierTool.tsx:49 | text without such a `//` is left alone |
| Lines.StripLineCommentsIdempotent | src/pages/MinifierTool.tsx:49 | removing line comments twice is removing them once |
| Lines.StripLineCommentsKeepsBreaks | src/pages/MinifierTool.tsx:49 | every line terminator is kept, in order: a comment ends at its line's end |
| Lines.LineCommentRemoved | src/pages/MinifierTool.tsx:49 | `x//c` + line feed + `y` becomes `x` + line feed + `y` |
| Lines.UrlKept | src/pages/MinifierTool.tsx:49 | `a="http://x"` is left alone: the `//` follows `:` |
| Lines.TrimEach | src/pages/MinifierTool.tsx:54 | `map(line => line.trim())` keeps the number of lines |
| Lines.NonBlank | src/pages/MinifierTool.tsx:55 | `filter(line => line.length > 0)` keeps at most the lines it gets |
| Lines.JoinedCons | src/pages/MinifierTool.tsx:53-56 | the joined text is the first line trimmed followed by the joined rest |
| Lines.JoinedNewlineFree | src/pages/MinifierTool.tsx:53-56 | lines without line feeds join to text without line feeds |
| Lines.JoinedKeepsNonSpace | src/pages/MinifierTool.tsx:53-56 | trimming, dropping empty lines and joining removes whitespace only |
| Lines.JoinLinesNewlineFree | src/pages/MinifierTool.tsx:53-56 | the joined text has no line feed |
| Lines.JoinLinesKeepsNonSpace | src/pages/MinifierTool.tsx:53-56 | splitting on line feeds, trimming, filtering and joining removes whitespace only |
| Lines.Concat | src/pages/MinifierTool.tsx:56 | `join('')` (definition); Lines.JoinedCons, Lines.JoinedNewlineFree and Lines.JoinedKeepsNonSpace state what the join gives |
| Lines.Joined | src/pages/MinifierTool.tsx:54-56 | trim each line, drop the empty ones, join (definition); Lines.JoinedCons, Lines.JoinedNewlineFree and Lines.JoinedKeepsNonSpace state its properties |
| Lines.JoinLines | src/pages/MinifierTool.tsx:53-56 | `split('\n')` then Lines.Joined (definition); Lines.JoinLinesNewlineFree and Lines.JoinLinesKeepsNonSpace state its properties |
| Minifier.MinifyHTML | src/pages/MinifierTool.tsx:17-27 | the output is trimmed, has no double whitespace and no whitespace between `>` and `<`; apart from whitespace it is the input with its `<!--…-->` comments removed; its runs of non-whitespace characters are those of the comment-free input, with a run ending in `>` joined to a next run starting with `<`, and every other two runs kept apart by exactly one whitespace character |
| Minifier.CssStep | src/pages/MinifierTool.tsx:34-38 | one delimiter pass clears its delimiter, keeps the earlier ones clear and removes whitespace only |
| Minifier.CssDelimiterPasses | src/pages/MinifierTool.tsx:34-38 | after the five passes no whitespace is next to `{ } ; : ,`, and only whitespace was removed; the runs of non-whitespace characters are those of the input, with two neighbours joined exactly when the character on either side of the gap is one of `{ } ; : ,` |
| Minifier.DropSemicolonsKeepsText | src/pages/MinifierTool.tsx:40 | apart from whitespace and semicolons, dropping `;` before `}` keeps the text |
| Minifier.MinifyCSS | src/pages/MinifierTool.tsx:29-44 | the output is trimmed, has no double whitespace and no whitespace next to `{ } ; : ,`; apart from whitespace and semicolons it is the input with its `/*…*/` comments removed; its runs of non-whitespace characters are those of the comment-free input joined around `{ } ; : ,`, each with `;}` made `}`, and every other two runs are kept apart by exactly one whitespace character |
| Minifier.OperatorPass | src/pages/MinifierTool.tsx:60-61 | the operator pass and the final trim give trimmed single-line text with no double whitespace and no whitespace next to an operator, removing whitespace only |
| Minifier.StripOperators | src/pages/MinifierTool.tsx:60 | Spacing.StripAround on `{ } ; , = + - * / < > ! & \| ? :` (definition); Minifier.OperatorPass states what it and the final `trim()` give |
| Minifier.MinifyJS | src/pages/MinifierTool.tsx:46-62 | the output is one line, trimmed, with no double whitespace and no whitespace next to `{ } ; , = + - * / < > ! & \| ? :`; apart from whitespace it is the input with its comments removed |
| Chunking.Chunks | src/pages/MinifierTool.tsx:26 | the maximal runs of non-whitespace characters: each run is non-empty and whitespace-free, and text starting with a non-whitespace character has a first run starting with it |
| Chunking.ChunksCons | src/pages/MinifierTool.tsx:26 | runs one character at a time: whitespace adds none, a non-whitespace character joins the first run when next to it and starts a run of its own otherwise |
| Chunking.Glue | src/pages/MinifierTool.tsx:22 | joining neighbouring runs keeps them non-empty and whitespace-free, never adds a run and keeps the first character (also lines 34-38) |
| Chunking.GlueTwice | src/pages/MinifierTool.tsx:34-38 | joining around one set of delimiters and then around another is joining around their union |
| Chunking.CollapseChunks | src/pages/MinifierTool.tsx:26 | `.replace(/\s{2,}/g, ' ')` keeps every run (also line 42) |
| Chunking.TrimChunks | src/pages/MinifierTool.tsx:24 | `trim()` keeps every run (also line 43) |
| Chunking.CloseTagGapsChunks | src/pages/MinifierTool.tsx:22 | `.replace(/>\s+</g, '><')` joins a run ending in `>` to a next run starting with `<`, and keeps every other two runs apart |
| Chunking.StripAroundChunks | src/pages/MinifierTool.tsx:34-38 | stripping around delimiters joins two neighbouring runs exactly when the character on either side of the gap is a delimiter, and keeps every other two runs apart (also line 60) |
| Chunking.DropSemicolonsChunks | src/pages/MinifierTool.tsx:40 | `.replace(/;}/g, '}')` works inside each run and keeps the number of runs |
| Minifier.MinifyHTMLKeepsGap | src/pages/MinifierTool.tsx:17-27 | `a  b` minifies to text whose runs are `a` and `b`, so not to `ab` |

## Left out

- React components, hooks, state, toasts and the clipboard are not modelled. Neither are `formatBytes`, `getSavingsPercent` (floating point) or the `Blob` sizes of the statistics.
- The `eval` of the bootstrap template is not modelled: the template is fixed text.
- Regular expressions are not run by a regex engine. Each one used here is written out as the scan it performs.
- The metacharacter escape of a word (PackerTool.tsx line 49) is not modelled. The words are `\w+` tokens, which it leaves unchanged.
- Unpacker.UnpackStep: an id whose `decode` is not a `\w+` word, or an entry containing `$`, gives `Err(Unmodelled)`. The `RegExp` syntax and `$` patterns of `replace` are outside the model. So is a `decode` code unit in the surrogate range, which makes `decode` itself give `Unmodelled`.
- Unpacker.Decode: `String.fromCharCode` is modelled as keeping the low 16 bits of the code. Its contract only says that ids below the radix give one character.
- `parseInt` is modelled on the decimal numerals the patterns capture. Numbers too large for a double are not distinguished.
- Scan.SortByCount: `Array.prototype.sort` is a library call. It is modelled by the stable sort it must be: an insertion sort, with its sortedness, permutation and stability proved.
- Scan.ScanWords takes the list of `\b\w+\b` matches (Words.Tokens of the code) rather than running `exec` in a loop.
- Packer.SubstituteWords: JavaScript arrays with holes are not modelled. The `forEach` writes every slot, so the dictionary has none.
- RoundTrip.UnpackRestores: requires that no token of the code reads as the numeral of another restored word. Without that, `1 ab` packs to `1 1` and unpacks to `ab ab` (RoundTrip.NumeralTokenCollides). The packer's scheme cannot tell such a token from a replaced word.
- PackedFormat.CorrectedRoundTrip: requires code in which no `'` is followed by `,` and a word character. This is a convenient over-approximation, not what the pattern needs. In the escaped payload every `'` follows a `\`, so `,'` never occurs inside it. The tail `',(\d+),(\d+),'…` can then end the lazy payload capture early only when the escaped packed text ends with `'`, `,`, digits, `,`, digits, `,`, which the template's own closing `'` completes. Code such as `f('a',b)` round-trips but is not covered.
- Passes.StripBlocks, Spacing.CloseTagGaps, Spacing.StripAround, Spacing.DropSemicolons and Lines.StripLineComments are written one character at a time. Where a match ends in a character the next match cannot start with, they resume inside the match instead of after it. The output is the same; each definition's comment says why.
- Minifier.MinifyJS: the output can fuse tokens. For example, `a + +b` becomes `a++b`, and two lines `a` and `b` become `ab`. The contract states the whitespace shape and that only whitespace and comments are removed, not that the program's meaning is kept.
- Minifier.MinifyCSS: `;}` is handled by one left-to-right pass, so `;;}` keeps one `;`. The contract does not claim that no `;}` is left.

## Findings

| source | as written | input that shows it | evidently intended | confidence | as-written member | corrected member |
|---|---|---|---|---|---|---|
| src/pages/PackerTool.tsx:52-54 | a word that is not replaced is still stored in the dictionary, so unpacking rewrites the code's own tokens that read as its id | `x 0`: neither word is replaced, the dictionary is `x\|0` with radix 2, and the unpacker turns the code's `0` (id 0's numeral) into `x`, giving `x x` | leave the entry empty (`""`) for a word that is not replaced; the unpacker skips empty entries | high (not executed) | RoundTrip.UnreplacedWordOverwritten | RoundTrip.CorrectedParametersUnpack |
| src/pages/PackerTool.tsx:66 | the word count is written as the radix `a`, and `decode` works in base `a` while `encode62` works in base 62 | code with 63 distinct words: id 62 is packed as `10` but `decode(62)` with radix 63 is `[` | write 62 as the radix | high (not executed) | RoundTrip.DecodeCountRadixFrom62 | RoundTrip.DecodeRadix62 |
| src/pages/PackerTool.tsx:76 | the lazy `\{.*?\}?\('` stops at the first `('`, the `RegExp('` inside the template's decoder, so the payload capture starts with template text | any non-blank code, e.g. `x`: `unpackJS(packJS("x"))` fails or gives text starting with `\` | require the brace, `\}\('`, so the capture starts at the payload | high (not executed) | PackedFormat.AsWrittenUnpackOfPack | PackedFormat.CorrectedRoundTrip |
| src/pages/PackerTool.tsx:46-55 | a replaced word gets its id's numeral even when the code already holds that numeral as a token, and the unpacker rewrites both | `1 ab`: `1` (id 0) is kept and `ab` (id 1) becomes `1`, so the packed text is `1 1`, which unpacks to `ab ab` with either dictionary | unpacking gives the code back; it does whenever no token of the code reads as a replaced word's numeral | high (not executed) | RoundTrip.NumeralTokenCollides | RoundTrip.CorrectedParametersUnpack |
