# ESC/POS Twig filters

A model of the string filters a Twig template creator registers so that
receipt templates can emit Epson ESC/POS printer commands. It covers:

- The six wrapping filters of `EscPosTemplateCreator`: `bold`,
  `underline`, `underlineheavy`, `center`, `right` and `fontB`. Each one
  returns an "enter" command, its argument, and the matching "exit"
  command. `center`, `right` and `fontB` add a line feed before the exit
  command. Every command is ESC (`chr(27)`), a command letter and an ASCII
  digit.
- The `html2escpos` filter. It first runs PHP's `strip_tags` with the
  allow string `"<b><strong><u>"`. The model of `strip_tags` follows PHP's
  scanner outside tags: a `<` followed by white space is copied as text, a
  NUL byte is dropped, any other `<` opens a tag. A tag ends at the first
  `>`, and is kept verbatim exactly when its normalised name occurs in the
  lower-cased allow string. It then runs an array `str_replace`
  that turns `<b>`, `<strong>`, `</b>`, `</strong>`, `<u>` and `</u>`
  into ESC E 1, ESC E 1, ESC E 0, ESC E 0, ESC - 1 and ESC - 0.
- The `chr` Twig function of `TemplateCreator`.

Everything is pure and works on strings. The modules are:

| module | file | contents |
|---|---|---|
| `Strings` | `strings.dfy` | substring occurrence, which PHP's `strstr` tests |
| `Replace` | `str_replace.dfy` | one `str_replace` pass, and the array form |
| `Strip` | `strip_tags.dfy` | the tag scanner of `strip_tags`, with its tag-name normalisation |
| `EscPos` | `escpos.dfy` | the wrapping filters and their inverse |
| `Markup` | `markup.dfy` | `html2escpos`, and a reference translation over text split into pieces |
| `TemplateCreator` | `template_creator.dfy` | `chr`, and the commands written with it |

`html2escpos` is registered twice, in src/EscPosTemplateCreator.php:28-32
and in src/TemplateCreator.php:49-53. The two closures are the same
expression character for character, so the single function
`Markup.Html2EscPos` models both.

The central theorem is `Markup.Html2EscPosPieces`. It takes an input
written as a sequence of pieces. Each piece is either text without NUL in
which every `<` is followed by white space, or a tag `<inner>` whose inside holds no bracket, quote or NUL and
does not start with white space, `!` or `?`. On such tags the modelled
scanner and PHP's agree: PHP closes them at their `>` and copies them
unchanged when they are allowed. For such an input,
`html2escpos` equals the piece-wise translation:

- text is kept;
- a tag whose normalised name is not `b`, `strong` or `u` is dropped
  (`Markup.AllowedIff` shows this is the allow-string lookup);
- one of the six literal tags becomes its command;
- any other allowed tag is kept exactly as written.

## Model

| member | source | states |
|---|---|---|
| EscPos.Filter | src/EscPosTemplateCreator.php:36-75 | every wrapping filter's output starts with ESC and its three-byte enter command; carries the argument unchanged at positions 3 to 3+\|s\|; has a line feed right after it for center, right and fontB; ends with the three-byte exit command; and is \|s\|+6 or \|s\|+7 long |
| EscPos.BoldBytes | src/EscPosTemplateCreator.php:38 | bold(s) is ESC E 1, then s, then ESC E 0, and is \|s\|+6 long |
| EscPos.UnderlinesDiffer | src/EscPosTemplateCreator.php:45-52 | underline uses ESC - 1 and underlineheavy uses ESC - 2; both end with ESC - 0; their outputs differ only at the enter command's digit |
| EscPos.LineEndingFilters | src/EscPosTemplateCreator.php:59-73 | center, right and fontB give their enter command, s, "\n", then their exit command; center and right share the exit ESC a 0 |
| EscPos.FilterName | src/EscPosTemplateCreator.php:36-75 | the Twig name each filter is registered under: bold, underline, underlineheavy, center, right and fontB; EscPos.MarkerNamed and EscPos.MarkerNamedFilterName show that each name finds its own filter and an unregistered name finds none |
| EscPos.EnterCode | src/EscPosTemplateCreator.php:36-75 | the command each filter emits before its argument; EscPos.Filter and EscPos.EnterCodeDistinct state it |
| EscPos.ExitCode | src/EscPosTemplateCreator.php:36-75 | the command each filter emits at its end: ESC E 0, ESC - 0, ESC a 0 or ESC M 0; EscPos.Filter states it |
| EscPos.Unwrap | src/EscPosTemplateCreator.php:36-75 | reads a filter's output back into the filter and its argument; EscPos.UnwrapFilter and EscPos.FilterUnwrap show it inverts the filters |
| EscPos.MarkerNamed | src/EscPosTemplateCreator.php:36-75 | looking up a filter by its registered name finds the filter of that name; a name no filter has finds nothing |
| EscPos.MarkerNamedFilterName | src/EscPosTemplateCreator.php:36-75 | each of the six registered names leads back to its own filter |
| EscPos.UnwrapFilter | src/EscPosTemplateCreator.php:36-75 | the enter command and the trailer determine the filter and its argument: Unwrap gives back exactly (filter, argument) |
| EscPos.FilterUnwrap | src/EscPosTemplateCreator.php:36-75 | whatever Unwrap accepts is exactly the output of the filter it names, applied to the text it extracts |
| EscPos.FilterInjective | src/EscPosTemplateCreator.php:36-75 | two filter applications with equal output used the same filter and the same argument |
| EscPos.EnterCodeDistinct | src/EscPosTemplateCreator.php:36-75 | the six enter commands are pairwise distinct, so each identifies its filter |
| TemplateCreator.Chr | src/TemplateCreator.php:43-45 | chr(i) is a one-character string whose code is in 0..255; it equals i when i is in that range and is congruent to i modulo 256 otherwise |
| TemplateCreator.ChrInjective | src/TemplateCreator.php:13 | on 0..255, chr gives different strings for different codes |
| TemplateCreator.ChrPeriodic | src/TemplateCreator.php:43-45 | arguments that differ by a multiple of 256 give the same one-character string |
| TemplateCreator.ChrWraps | src/TemplateCreator.php:43-45 | chr(-1) equals chr(255), chr(256) equals chr(0), and chr(283) equals chr(27) |
| TemplateCreator.ChrEsc | src/EscPosTemplateCreator.php:38 | chr(27) is the one-character string ESC |
| TemplateCreator.FiltersFromChr | src/EscPosTemplateCreator.php:38-52 | bold, underline and underlineheavy equal the source's concatenations chr(27).'E1' . s . chr(27).'E0', chr(27).'-1' . s . chr(27).'-0' and chr(27).'-2' . s . chr(27).'-0' |
| TemplateCreator.LineFiltersFromChr | src/EscPosTemplateCreator.php:59-73 | center, right and fontB equal chr(27).'a1' . s . "\n" . chr(27).'a0', chr(27).'a2' . s . "\n" . chr(27).'a0' and chr(27).'M1' . s . "\n" . chr(27).'M0' |
| TemplateCreator.TagReplaceFromChr | src/TemplateCreator.php:51 | html2escpos's replacement array is chr(27).'E1', chr(27).'E1', chr(27).'E0', chr(27).'E0', chr(27).'-1', chr(27).'-0', in that order |
| Strip.IndexOfGt | src/EscPosTemplateCreator.php:30 | the strip stage's tag end is the first '>' at or after the start, or the end of the input when there is none |
| Strip.StripTags | src/EscPosTemplateCreator.php:30 | strip_tags never lengthens its input |
| Strip.IsSpace | src/TemplateCreator.php:51 | C's isspace in the default locale: space, tab, line feed, vertical tab, form feed and carriage return; Strip.StripCons, Strip.StripText and Strip.StripUnclosed state that a '<' before one of them is copied as text and a '<' before anything else opens a tag |
| Strip.Normalized | src/TemplateCreator.php:51 | the string php_tag_find looks up for a tag: '<', the normalised name, '>'; Strip.Allowed tests it against the lower-cased allow string and Markup.AllowedIff states the outcome for "<b><strong><u>" |
| Strip.NameFrom | src/TemplateCreator.php:51 | php_tag_find's normalisation of a tag: lower case, leading white space skipped, the name ended by white space, a '/' after '<' or before '>' dropped; Markup.TableTagNames, Markup.AllowListAccepts and Markup.AllowListRejects state its values |
| Strip.TagName | src/TemplateCreator.php:51 | the normalised name of a whole tag, read after its '<'; Markup.NameFromNoGt shows it holds no '>' |
| Strip.Allowed | src/TemplateCreator.php:51 | a tag is allowed when "<" + its normalised name + ">" occurs in the lower-cased allow string; Markup.AllowedIff states what this means for "<b><strong><u>" |
| Strip.StripCons | src/TemplateCreator.php:51 | a character other than NUL, or a '<' followed by white space, is copied and scanning continues after it |
| Strip.StripText | src/TemplateCreator.php:51 | text without NUL whose every '<' is followed by white space passes strip_tags unchanged, and scanning continues after it |
| Strip.StripClosed | src/TemplateCreator.php:51 | a '<' not followed by white space, up to the first '>', is copied verbatim when allowed and dropped otherwise; scanning resumes after the '>' |
| Strip.StripTag | src/TemplateCreator.php:51 | a tag whose inside has no bracket, quote or NUL and does not start with white space, '!' or '?' is copied verbatim when its normalised name occurs in the allow string and dropped otherwise; scanning resumes right after its '>' |
| Strip.StripUnclosed | src/EscPosTemplateCreator.php:30 | a '<' not followed by white space with no '>' after it removes the rest of the input |
| Strip.StripIdempotent | src/EscPosTemplateCreator.php:30 | stripping the output of strip_tags again with the same allow string changes nothing |
| Strip.StripIdempotentTag | src/EscPosTemplateCreator.php:30 | the idempotence step for input that starts with a closed tag |
| Replace.ReplaceAllLength | src/EscPosTemplateCreator.php:30 | one str_replace pass changes the length by the number of matches times (\|replacement\| - \|search\|) |
| Replace.ReplaceAllAbsent | src/EscPosTemplateCreator.php:30 | a pass over a subject that does not contain the search string returns the subject unchanged, with no matches |
| Replace.ReplaceAllCreatesNothing | src/EscPosTemplateCreator.php:30 | a pass whose replacement shares no character with q creates no occurrence of q that was not already there |
| Replace.ReplaceAllRemoves | src/EscPosTemplateCreator.php:30 | after a pass, no occurrence of the search string remains when the replacement is non-empty and shares no character with it |
| Replace.ReplaceAllPrefix | src/EscPosTemplateCreator.php:30 | a prefix of a pass's output that shares no character with the replacement was already a prefix of the subject |
| Replace.StrReplaceCreatesNothing | src/EscPosTemplateCreator.php:30 | across all the passes of the array form, no pass creates an occurrence of a string that shares no character with any replacement |
| Replace.StrReplaceRemovesAll | src/EscPosTemplateCreator.php:30 | with a table whose entries are non-empty and whose replacements share no character with any search string, no search string occurs in the result of the array form |
| Replace.StrReplaceAbsent | src/EscPosTemplateCreator.php:30 | the array form returns a subject in which none of its search strings occurs unchanged |
| Replace.StrReplaceShrinks | src/EscPosTemplateCreator.php:30 | when no replacement is longer than its search string, the array form never lengthens the subject |
| Replace.ReplaceAll | src/EscPosTemplateCreator.php:30 | one str_replace pass: every non-overlapping occurrence, left to right, replaced; an empty search string changes nothing; the Replace.ReplaceAll* lemmas state its length, what it removes and that it creates nothing |
| Replace.Matches | src/EscPosTemplateCreator.php:30 | the number of replacements one pass makes, as Replace.ReplaceAllLength and Replace.ReplaceAllAbsent use it |
| Replace.StrReplace | src/EscPosTemplateCreator.php:30 | the array str_replace: one pass per search entry in array order, a missing replacement read as ""; Replace.StrReplaceRemovesAll, Replace.StrReplaceShrinks and Replace.StrReplaceAbsent state its properties |
| Strings.Occurs | src/TemplateCreator.php:51 | strstr's test that the normalised tag occurs in the allow string; Strings.OccursAt gives its positional meaning |
| Strings.OccursAt | src/EscPosTemplateCreator.php:30 | the substring search used for the allow-list lookup holds exactly when some suffix of the string starts with the pattern |
| Strings.OccursInSuffix | src/EscPosTemplateCreator.php:30 | an occurrence in a suffix is an occurrence in the whole string |
| Strings.OccursPastPrefix | src/EscPosTemplateCreator.php:30 | an occurrence that cannot start in a prefix lacking its first character lies in the rest |
| Markup.Html2EscPos | src/EscPosTemplateCreator.php:30 | the html2escpos filter of both files: str_replace of the six tags applied to strip_tags(s, "<b><strong><u>"); Markup.Html2EscPosPieces, Markup.Html2EscPosNoLiteralTags and Markup.Html2EscPosShrinks state its properties |
| Markup.CodesMatchFilters | src/EscPosTemplateCreator.php:30 | html2escpos's commands are exactly the enter and exit commands of the bold and underline filters, and every replacement is a three-byte command starting with ESC |
| Markup.TableChainSafe | src/EscPosTemplateCreator.php:30 | html2escpos's six replacements are non-empty and share no character with any of its six search tags |
| Markup.Html2EscPosNoLiteralTags | src/EscPosTemplateCreator.php:30 | for every input, none of <b>, <strong>, </b>, </strong>, <u>, </u> occurs in the output of html2escpos |
| Markup.Html2EscPosShrinks | src/EscPosTemplateCreator.php:30 | for every input, the output of html2escpos is no longer than the input |
| Markup.AllowedIff | src/TemplateCreator.php:51 | the strip stage keeps a tag exactly when its normalised name is b, strong or u |
| Markup.OccursInTagList | src/TemplateCreator.php:51 | a bracketed name occurs in a concatenation of bracketed names exactly when it is one of them |
| Markup.BracketPrefix | src/TemplateCreator.php:51 | a bracketed name that starts another bracketed name is that same name |
| Markup.NameFromNoGt | src/TemplateCreator.php:51 | a normalised tag name never contains '>' |
| Markup.LowerAllowList | src/TemplateCreator.php:51 | the allow string is already lower case and is the bracketed list of b, strong and u |
| Markup.TableTagNames | src/TemplateCreator.php:51 | the normalised names of the six literal tags are b, strong and u |
| Markup.TableTagsAllowed | src/TemplateCreator.php:51 | each of the six literal tags the replace stage looks for passes the strip stage |
| Markup.AllowListAccepts | src/TemplateCreator.php:51 | <B>, <b class="x"> and <b/> pass the strip stage: case, attributes and a self-closing slash do not matter |
| Markup.AllowListRejects | src/TemplateCreator.php:51 | <i>, <br/> and </ b> are removed by the strip stage |
| Markup.StripRender | src/TemplateCreator.php:51 | on input made of pieces, strip_tags keeps exactly the text pieces and the allowed tags, in order |
| Markup.StripPiece | src/TemplateCreator.php:51 | strip_tags on one piece followed by more input keeps or drops that piece and continues |
| Markup.KeptWellFormed | src/TemplateCreator.php:51 | the pieces that survive stripping are still well formed |
| Markup.StrReplaceRender | src/EscPosTemplateCreator.php:30 | on input made of pieces, the array replace works piece by piece: it rewrites only tags that are literally in the table |
| Markup.StrReplaceOnePiece | src/EscPosTemplateCreator.php:30 | the array replace on one piece followed by more input is that piece's replacement followed by the replace of the rest |
| Markup.ReplaceOnePiece | src/EscPosTemplateCreator.php:30 | one bracketed search pass over one piece followed by more input rewrites that piece on its own |
| Markup.ReplaceText | src/EscPosTemplateCreator.php:30 | a pass whose search string is '<' followed by a character other than white space skips over text whose every '<' is followed by white space |
| Markup.ReplaceTag | src/EscPosTemplateCreator.php:30 | a pass with a bracketed search string replaces a tag that equals it, and otherwise leaves the tag whole |
| Markup.TranslateKept | src/EscPosTemplateCreator.php:30 | rewriting the kept pieces with the table is the piece-wise translation of the input |
| Markup.TranslateKeptPiece | src/EscPosTemplateCreator.php:30 | for one piece: an allowed tag becomes its command if it is one of the six, and otherwise stays as it is |
| Markup.ReplaceTagPiece | src/EscPosTemplateCreator.php:30 | the six passes turn a tag into its command exactly when it is spelt as one of the six literal tags, and leave every other tag whole |
| Markup.Html2EscPosPieces | src/EscPosTemplateCreator.php:30 | for every input made of text (no NUL, every '<' followed by white space) and tags with a simple inside, html2escpos equals the piece-wise reference translation |
| Markup.TranslateAllNoLt | src/EscPosTemplateCreator.php:30 | if the text of the input holds no '<' and every tag is either not allowed or one of the six literal tags, the translation contains no '<' |
| Markup.NoLtForPlainTags | src/EscPosTemplateCreator.php:30 | for such input, the output of html2escpos contains no '<' |
| Markup.LooseNoTag | src/EscPosTemplateCreator.php:30 | no search string '<' + non-space can occur in text whose every '<' is followed by white space |
| Markup.TextUnchanged | src/EscPosTemplateCreator.php:30 | text without NUL whose every '<' is followed by white space passes html2escpos unchanged, CR LF line endings included |
| Markup.ExampleSpacedLt | src/EscPosTemplateCreator.php:30 | "a < b" is returned unchanged |
| Markup.SpacedTagKept | src/EscPosTemplateCreator.php:30 | "< i>" followed by text is returned unchanged: a '<' before white space opens no tag |
| Markup.BoldSpan | src/EscPosTemplateCreator.php:30 | <b>x</b> followed by text y becomes ESC E 1, x, ESC E 0, y |
| Markup.TagsMatchFilters | src/EscPosTemplateCreator.php:30-38 | html2escpos turns <b>x</b>y and <strong>x</strong>y into the bold filter of x followed by y, and <u>x</u>y into the underline filter of x followed by y |
| Markup.StrongSpan | src/TemplateCreator.php:51 | <strong>x</strong>y becomes ESC E 1, x, ESC E 0, y, the same as <b> |
| Markup.UnderlineSpan | src/TemplateCreator.php:51 | <u>x</u>y becomes ESC - 1, x, ESC - 0, y |
| Markup.LoneClosingTag | src/EscPosTemplateCreator.php:30 | an unpaired </b> still becomes ESC E 0 |
| Markup.DisallowedTagDropped | src/TemplateCreator.php:51 | <i>x</i> becomes x: a tag that is not allowed is removed and its text is kept |
| Markup.UpperCaseTagsKept | src/EscPosTemplateCreator.php:30 | <B>x</B> comes out unchanged: the strip stage ignores case, but the replace stage does not |
| Markup.AttributedTagKept | src/EscPosTemplateCreator.php:30 | in <b class=x>x</b>, the opening tag is kept verbatim because it passes the strip stage but matches no search string, while </b> becomes ESC E 0 |
| Markup.ExampleTotal | src/EscPosTemplateCreator.php:30 | "<b>Total</b>: 10" becomes ESC E 1, "Total", ESC E 0, ": 10" |
| Markup.ExampleBoldComparison | src/EscPosTemplateCreator.php:30 | "<b>1 < 2</b>" becomes ESC E 1, "1 < 2", ESC E 0: the '<' before a space stays text inside a bold span |
| Markup.ExampleCrLf | src/EscPosTemplateCreator.php:30 | "a\r\nb" is returned unchanged |

## Left out

- Twig plumbing is not modelled: the filesystem loader, the cache and
  reload options, and loading the template (src/TemplateCreator.php:30-35
  and 57). They are I/O and calls into a foreign library.
- `StringExtension` and its `u` filter are not modelled
  (src/TemplateCreator.php:39). They belong to a foreign library.
- The registration calls (`addFilter`, `addFunction`) and the
  `registerFilters` inheritance are wiring only. Each filter is modelled
  as a free-standing function. The constructor of `TemplateCreator`
  (src/TemplateCreator.php:39-53) registers `StringExtension`, `chr` and
  `html2escpos`; it does not register the six wrapping filters. Those are
  registered only by `EscPosTemplateCreator::registerFilters`, which
  nothing in these two files calls. Its first statement,
  `parent::registerFilters` (src/EscPosTemplateCreator.php:24), names a
  method that `TemplateCreator` does not define, so a call to it would
  fail before any filter is registered. The model describes what each
  filter computes once it is registered.
- Strip.StripTags: a tag runs from its `<` to the first `>`, and a kept tag
  is copied as written. PHP's scanner does more inside a tag. It counts a
  nested `<` and waits for the matching `>`. It ignores `>` and `<` between
  quotes, including after an unbalanced quote. It copies a kept tag from a
  buffer that leaves out NUL, the nested `<` and the quoted `>`, and it
  looks that buffer up in the allow string, so the lookup does not see a NUL
  either: on `"<\0b>x"` PHP keeps `<b>` and html2escpos gives ESC E 1 x,
  while the model drops the whole tag and gives "x". It treats
  `<!` (comments, declarations) and `<?` (processing instructions) as
  separate states with their own ends. None of this is modelled. Outside
  tags the model follows PHP: a `<` followed by white space is text, and NUL
  is dropped.
- Strip.StripClosed and Strip.IndexOfGt: a tag is cut at its first `>` and
  looked up exactly as written, NUL and quotes included. They do not model
  the tag buffer described under Strip.StripTags.
- Strip.StripIdempotent: proved for the scanner as modelled. It says
  nothing about the inputs listed above.
- Markup.Html2EscPosPieces, Markup.StripRender, Markup.StripPiece and
  Strip.StripTag: all four are restricted to tag insides on which the
  scanners agree (`Strip.SimpleInner`). They therefore do not cover the
  inputs listed under Strip.StripTags.
- Every filter takes a string, so what PHP does with any other argument is
  not modelled. Twig passes the value through unchanged, and PHP then
  converts it inside the closure. The `.` of the wrapping filters
  (src/EscPosTemplateCreator.php:38-73) turns a number into its decimal
  text and null into "", and turns an array into "Array" with a warning.
  The string parameter of `strip_tags` (src/EscPosTemplateCreator.php:30,
  src/TemplateCreator.php:51) converts a number, deprecates null, and
  throws a TypeError for an array. That error path is not modelled.
- The Twig environment is created without an `autoescape` option, so Twig
  HTML-escapes a filter's output when a template prints it. That happens
  after the filters and is outside this model.
- Markup.NoLtForPlainTags: states "no `<` in the output" only for inputs
  whose text holds no `<` and whose allowed tags are the six literal ones.
  The code promises nothing more. A `<` before white space is text and
  stays (Markup.ExampleSpacedLt), and an allowed tag spelt differently
  (`<B>`, `<b class=x>`) survives both stages, as Markup.UpperCaseTagsKept
  and Markup.AttributedTagKept show.
- CR LF normalisation is not done by these filters. Markup.ExampleCrLf
  shows that line endings pass through unchanged.
- Escrow of binary segments, code-page transcoding, and barcode, QR-code
  and image markers are not in these two files.
- TemplateCreator.Chr: takes an integer only. PHP's coercion of
  non-integer arguments (strings, floats, booleans) before `chr` is not
  modelled.
- A PHP string is a sequence of bytes, and the model treats it as a
  sequence of Dafny `char`s. For text in UTF-8 this does not change what
  the scanner and the tag normalisation decide, because they only test
  ASCII characters, and no byte of a multi-byte UTF-8 sequence is ASCII.
  The length lemmas (EscPos.Filter, Replace.ReplaceAllLength,
  Markup.Html2EscPosShrinks) count characters, where PHP's `strlen` counts
  bytes.
