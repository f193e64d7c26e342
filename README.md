# Quote scraper core, modelled in Dafny

This project models the extraction core of the Django management command
`scrape_quotes`. The command reads one quote index page ("Love and
Dreams") and cuts the page's flat run of sibling nodes into quote blocks
at every `<hr width="50%">`. From each block it pulls the body text, the
author and the source. It normalises each of these with
`clean_text_for_db`. It then fetches or creates the Author, Category
"Quotes", Source and Quote rows.

The modules follow the program's structure:

- `PyStr` (`py_str.dfy`) covers the Python string operations the command
  relies on: `str.strip` (with Python 3's whitespace set),
  `str.replace` of one character, `str.split` / `str.join` on `'\n'`, and
  `str.split(sep)[-1]`.
- `CleanText` (`clean_text.dfy`) covers `clean_text_for_db`:
  - NFKC;
  - typographic folding;
  - zero-width and no-break space handling;
  - the character filter, as a loop proved equal to a sequence filter;
  - per-line stripping;
  - the final strip.

  NFKC and `unicodedata.category` are parameters, bundled as `UnicodeDb`.
- `Html` (`html.dfy`) covers the parse tree and the BeautifulSoup queries
  the command makes: `find` as the first match in document order,
  `find_next_sibling`, `Tag.get`, Python truthiness of nodes, and
  `get_text(strip=True)`.
- `Store` (`store.dfy`) covers the save decision at the end of
  `process_quote_block`, over a value-level store. Names are kept as
  sets. Quotes are kept as a map from text to row.
- `QuoteBlock` (`quote_block.dfy`) covers `process_quote_block`: the
  backward walk from `<p align="right">`, the reversal, `<br>` as a
  newline, the fallback to all the block's text, the author and source
  spans, and the save.
- `Scrape` (`scrape.dfy`) covers `Command.handle` once the page is parsed:
  - the category name;
  - the start point after the heading's thin rule;
  - the segmenting walk;
  - the count of processed blocks.

Two places where the comments and the code disagree:

- The comment at line 44 says empty lines are filtered out. The code
  (lines 45-49) only strips each line, so blank lines inside a quote
  survive. The model follows the code.
- The success message at line 117 calls the count "new quotes added". The
  count is incremented for every processed block, including blocks whose
  quote already exists and blocks with empty text. The model follows the
  code; `Scrape.CountIsBlocksNotNewQuotes` states the consequence.

## Model

All source paths are under `django_app/quotes_app/management/commands/`.

| member | source | states |
|---|---|---|
| PyStr.Strip | django_app/quotes_app/management/commands/scrape_quotes.py:46 | `str.strip()`: the result is trimmed, is a contiguous slice of the input starting after the leading whitespace, and only whitespace follows it |
| PyStr.StripOfTrimmed | django_app/quotes_app/management/commands/scrape_quotes.py:51 | stripping an already trimmed string returns it unchanged |
| PyStr.ReplaceChar | django_app/quotes_app/management/commands/scrape_quotes.py:21-27 | `str.replace(c, r)`: when `r` does not contain `c`, no `c` is left; every result character comes from `r` or is a different character of the input; every input character other than `c` is still there |
| PyStr.ReplaceCharConcat | django_app/quotes_app/management/commands/scrape_quotes.py:21-27 | `replace` acts on each piece of a concatenation independently, so with ReplaceCharOne it fixes the result for every input |
| PyStr.ReplaceCharOne | django_app/quotes_app/management/commands/scrape_quotes.py:21-27 | a single character becomes the replacement string when it is the pattern and stays itself otherwise |
| PyStr.ReplaceAbsent | django_app/quotes_app/management/commands/scrape_quotes.py:21-27 | replacing a character that does not occur leaves the string as it is |
| PyStr.ReplaceCharPointwise | django_app/quotes_app/management/commands/scrape_quotes.py:76 | replacing one character by one character keeps the length and changes exactly the positions that held it |
| PyStr.Split | django_app/quotes_app/management/commands/scrape_quotes.py:45 | `split('\n')` gives at least one piece, and no piece contains the separator |
| PyStr.JoinSplit | django_app/quotes_app/management/commands/scrape_quotes.py:45-49 | joining the pieces of a split with the same separator gives back the string |
| PyStr.SplitJoin | django_app/quotes_app/management/commands/scrape_quotes.py:45-49 | splitting a join of separator-free pieces gives back the pieces |
| PyStr.JoinChars | django_app/quotes_app/management/commands/scrape_quotes.py:49 | every character of `'\n'.join(lines)` is the separator or comes from one of the lines |
| PyStr.LastPieceStartCuts | django_app/quotes_app/management/commands/scrape_quotes.py:76 | the left-to-right scan of `split(sep)` ends at the start of the text or just after an occurrence of `sep`, and no occurrence begins after that point |
| PyStr.LastPiece | django_app/quotes_app/management/commands/scrape_quotes.py:76 | `split(sep)[-1]`: a suffix of the input with no occurrence of `sep`, preceded by `sep` whenever it is shorter than the input |
| CleanText.FoldTypography | django_app/quotes_app/management/commands/scrape_quotes.py:21-23 | every character of the folded text was in the input or is one of the ASCII replacements `'`, `"`, `.` |
| CleanText.FoldTypographyConcat | django_app/quotes_app/management/commands/scrape_quotes.py:21-23 | the fold works character by character: the fold of a concatenation is the concatenation of the folds |
| CleanText.FoldTypographyOne | django_app/quotes_app/management/commands/scrape_quotes.py:21-23 | each character's fold: ‘ and ’ become `'`, “ and ” become `"`, … becomes `...`, every other character is unchanged |
| CleanText.DropInvisible | django_app/quotes_app/management/commands/scrape_quotes.py:25-27 | step 3 leaves no zero-width space and no no-break space, brings in nothing but spaces, and keeps every other character |
| CleanText.DropInvisibleConcat | django_app/quotes_app/management/commands/scrape_quotes.py:26-27 | the invisible-space step works character by character |
| CleanText.DropInvisibleOne | django_app/quotes_app/management/commands/scrape_quotes.py:26-27 | each character's image: U+200B is deleted, U+00A0 becomes a space, every other character is unchanged |
| CleanText.FoldedGone | django_app/quotes_app/management/commands/scrape_quotes.py:21-27 | after folding and the invisible-space step, no curly quote, ellipsis, zero-width space or no-break space is left |
| CleanText.FilterUnprintable | django_app/quotes_app/management/commands/scrape_quotes.py:29-40 | the filter keeps exactly the characters that are `\n`, `\t`, `\r`, space or outside Cc/Cf/Cn/Co/Cs: every kept character is allowed, and every allowed input character is kept |
| CleanText.FilterConcat | django_app/quotes_app/management/commands/scrape_quotes.py:31-40 | the filter works character by character: filtering a concatenation is the concatenation of the filtered parts |
| CleanText.FilterAllKept | django_app/quotes_app/management/commands/scrape_quotes.py:36-37 | a string made only of allowed characters passes the filter unchanged |
| CleanText.FilterUnprintableChars | django_app/quotes_app/management/commands/scrape_quotes.py:31-40 | the character loop computes exactly the filtered string |
| CleanText.StripEach | django_app/quotes_app/management/commands/scrape_quotes.py:46 | the list comprehension strips every line and keeps every line, blank ones included |
| CleanText.StripLines | django_app/quotes_app/management/commands/scrape_quotes.py:45-49 | step 5 drops no line: the lines of its result are exactly the input's lines, each stripped, so every line is trimmed and blank interior lines survive |
| CleanText.CleanTextForDb | django_app/quotes_app/management/commands/scrape_quotes.py:12-51 | the method runs the pipeline in the source's order (NFKC, fold, invisible spaces, filter, per-line strip, final strip) |
| CleanText.Clean | django_app/quotes_app/management/commands/scrape_quotes.py:12-51 | cleaned text has no whitespace at either end, and none at either end of any of its lines |
| CleanText.StripJoinedRun | django_app/quotes_app/management/commands/scrape_quotes.py:49-51 | the final strip over the joined stripped lines only removes whole empty lines at either end: what is left splits into a contiguous run of the lines, and every line outside it is empty |
| CleanText.StripJoinedTrimmed | django_app/quotes_app/management/commands/scrape_quotes.py:49-51 | after the final strip every line of the joined stripped lines is still trimmed |
| CleanText.CleanLines | django_app/quotes_app/management/commands/scrape_quotes.py:42-51 | the lines of the cleaned text are a contiguous run of the per-line stripped lines, with only empty lines dropped at the very start and end |
| CleanText.CleanChars | django_app/quotes_app/management/commands/scrape_quotes.py:45-51 | every character of the cleaned text is a newline or came through the filter |
| CleanText.CleanOmitsFolded | django_app/quotes_app/management/commands/scrape_quotes.py:16-40 | cleaned text holds no folded typographic character and no filtered character |
| CleanText.CleanFixedPoint | django_app/quotes_app/management/commands/scrape_quotes.py:12-51 | text that NFKC leaves alone, with only allowed characters and every line trimmed, is cleaned to itself |
| CleanText.CleanIdempotentWhenNfkcStable | django_app/quotes_app/management/commands/scrape_quotes.py:12-51 | cleaning twice equals cleaning once, whenever NFKC leaves the cleaned text alone |
| Html.FindFrom | django_app/quotes_app/management/commands/scrape_quotes.py:131 | `find` returns a matching node when there is one anywhere in the fragment, and none only when no node matches |
| Html.FindInTree | django_app/quotes_app/management/commands/scrape_quotes.py:131 | the hit's sibling list is the fragment's top level or the children of a node of the fragment, so the backward walk runs over real siblings of the found paragraph |
| Html.LocationsFit | django_app/quotes_app/management/commands/scrape_quotes.py:131 | the location list runs alongside the document-order traversal: same length, and each location (sibling list and index) holds the node at the same position |
| Html.FindIsFirst | django_app/quotes_app/management/commands/scrape_quotes.py:131 | `find` stops at the first match in document order: its hit is the location of that position of the traversal and holds that node |
| Html.FindAtFirstMatch | django_app/quotes_app/management/commands/scrape_quotes.py:131 | `find` returns nothing iff no node of the fragment matches, and whenever a position of the traversal holds the first match, `find` returns exactly that position's location |
| Html.NextSibling | django_app/quotes_app/management/commands/scrape_quotes.py:83 | `find_next_sibling` returns the first later sibling that matches, or none when no later sibling matches |
| Html.StrippedText | django_app/quotes_app/management/commands/scrape_quotes.py:157-168 | `get_text(strip=True)` is the strings of the document-order traversal, each stripped, concatenated; tags add nothing themselves |
| Html.StrippedTextConcat | django_app/quotes_app/management/commands/scrape_quotes.py:157-168 | the text of consecutive runs of nodes is the concatenation of their texts |
| QuoteBlock.BodyStart | django_app/quotes_app/management/commands/scrape_quotes.py:136-139 | the backward walk stops just after the nearest `hr`/`img`/`h1`/`div` before the paragraph, and passes no such tag |
| QuoteBlock.RawBody | django_app/quotes_app/management/commands/scrape_quotes.py:143-151 | every character of the raw body is a `<br>`'s newline or comes from one of the strings; every character of every string is there, and any `<br>` puts a newline in |
| QuoteBlock.RawBodyConcat | django_app/quotes_app/management/commands/scrape_quotes.py:144-151 | the raw body of consecutive runs is the concatenation of their raw bodies |
| QuoteBlock.RawBodyIgnoresOtherTags | django_app/quotes_app/management/commands/scrape_quotes.py:144-149 | tags other than `<br>` add nothing to the raw body |
| QuoteBlock.CollectBodyNodes | django_app/quotes_app/management/commands/scrape_quotes.py:135-139 | the loop collects exactly the siblings back to the nearest stopping tag, nearest first |
| QuoteBlock.JoinReversed | django_app/quotes_app/management/commands/scrape_quotes.py:143-151 | walking the collected nodes in reverse joins them in document order: strings verbatim, `<br>` as a newline, other tags dropped |
| QuoteBlock.AssembleBody | django_app/quotes_app/management/commands/scrape_quotes.py:133-154 | the collect, reverse and join loops compute the cleaned raw body of the siblings between the last stopping tag and the paragraph, in document order |
| QuoteBlock.BreakBecomesNewline | django_app/quotes_app/management/commands/scrape_quotes.py:145-148 | a `<br>` between two strings becomes a newline between them |
| QuoteBlock.TwoLinesKept | django_app/quotes_app/management/commands/scrape_quotes.py:143-154 | two clean lines separated by `<br>` survive cleaning as two lines |
| QuoteBlock.SpanText | django_app/quotes_app/management/commands/scrape_quotes.py:159-168 | the author or source text is absent iff no node of the block matches the span; otherwise it is the cleaned, trimmed text of the first matching span in document order |
| QuoteBlock.BodyText | django_app/quotes_app/management/commands/scrape_quotes.py:130-157 | without any `<p align="right">` in the block, the body is the cleaned text of all its strings; with one, it is the cleaned raw body of the siblings between the nearest stopping tag and the first such paragraph in document order |
| QuoteBlock.Extract | django_app/quotes_app/management/commands/scrape_quotes.py:126-168 | the extracted body is trimmed line by line; author and source are absent iff the block has no such span, and trimmed when present |
| QuoteBlock.ProcessQuoteBlock | django_app/quotes_app/management/commands/scrape_quotes.py:126-189 | processing a block saves what `Extract` pulls from it (body, or the fallback text; author and source spans) and ends in the store and outcome that `SaveQuote` gives |
| Store.AuthorKey | django_app/quotes_app/management/commands/scrape_quotes.py:175 | an empty author name links no author; a non-empty one is the author key as given |
| Store.SaveQuote | django_app/quotes_app/management/commands/scrape_quotes.py:172-189 | an empty body saves nothing. A non-empty body is keyed by its text: it is added iff the text is new, with author (when named), the page's category as source, and category "Quotes". An existing quote keeps its author and source and gains "Quotes". No other quote changes. A non-empty body adds to the author, source and category tables exactly its author (when named), the page's category and "Quotes", and nothing else |
| Store.SourceSpanUnused | django_app/quotes_app/management/commands/scrape_quotes.py:166-184 | the text of the `source` span plays no part in what is stored; the source is always the page's category |
| Store.SaveHeld | django_app/quotes_app/management/commands/scrape_quotes.py:172-189 | saving a block whose rows already exist changes nothing and reports the quote as already existing |
| Store.SaveAll | django_app/quotes_app/management/commands/scrape_quotes.py:97-114 | saving the blocks of a page in order gives one outcome per block |
| Store.SaveAllGrows | django_app/quotes_app/management/commands/scrape_quotes.py:172-189 | a pass never removes a name, a quote or a category membership |
| Store.SaveAllHolds | django_app/quotes_app/management/commands/scrape_quotes.py:172-189 | after a pass, every block's quote, author, source and category are present |
| Store.SaveAllHeld | django_app/quotes_app/management/commands/scrape_quotes.py:172-189 | a pass over blocks that are all present leaves the store unchanged and adds nothing |
| Store.RerunAddsNothing | django_app/quotes_app/management/commands/scrape_quotes.py:182-189 | running the same blocks again leaves the store as the first run left it and adds no quote |
| Store.AddedCountsNewQuotes | django_app/quotes_app/management/commands/scrape_quotes.py:182-191 | the number of "added" outcomes is exactly the number of new quote texts in the store |
| Scrape.CategoryName | django_app/quotes_app/management/commands/scrape_quotes.py:76 | the category holds no `+` |
| Scrape.CategoryNameIsLastSection | django_app/quotes_app/management/commands/scrape_quotes.py:76 | the category is the text after the last `section=`, character for character, with each `+` read as a space; it holds no `section=` |
| Scrape.PageCategory | django_app/quotes_app/management/commands/scrape_quotes.py:62-76 | the page's category, and so the source of its quotes, is "Love and Dreams" |
| Scrape.SkipFiller | django_app/quotes_app/management/commands/scrape_quotes.py:86-87 | the skip passes only `<br>` tags and non-empty whitespace-only strings, and stops at the first node that is neither (or is an empty string) |
| Scrape.StartPoint | django_app/quotes_app/management/commands/scrape_quotes.py:80-91 | every failure to find the start carries the message "Could not find the starting point for quotes parsing." |
| Scrape.StartPointAfterRule | django_app/quotes_app/management/commands/scrape_quotes.py:80-91 | without an `<h1>` there is no start. A start found is a sibling of the first `<h1>`: the first true, non-filler node after the first `<hr size="1">` that follows the heading, with only true filler in between |
| Scrape.StartPointFromRule | django_app/quotes_app/management/commands/scrape_quotes.py:80-91 | conversely, a true non-filler sibling of the first `<h1>` that follows the first `<hr size="1">` after it, with only true filler in between, is the start point |
| Scrape.SkipFillerNodes | django_app/quotes_app/management/commands/scrape_quotes.py:85-87 | the skipping loop stops exactly where `SkipFiller` says |
| Scrape.LocateStart | django_app/quotes_app/management/commands/scrape_quotes.py:80-91 | the locator's loop finds exactly that start point, or the same error |
| Scrape.WalkEndAt | django_app/quotes_app/management/commands/scrape_quotes.py:97-99 | the walk goes past a sibling exactly when it is true and is not the pagination block |
| Scrape.WalkEnd | django_app/quotes_app/management/commands/scrape_quotes.py:97-99 | the walk covers every sibling up to the end, an empty string or `<div id="pagination">`, whichever comes first |
| Scrape.GroupsFromArePieces | django_app/quotes_app/management/commands/scrape_quotes.py:94-114 | the blocks the walk produces, with a pending partial block, are the non-empty pieces between delimiters |
| Scrape.Groups | django_app/quotes_app/management/commands/scrape_quotes.py:94-114 | the blocks of a walk are exactly the non-empty pieces between `<hr width="50%">` rules; none is empty or holds a rule; and together they are the walked siblings in order without the rules |
| Scrape.GroupsWellFormed | django_app/quotes_app/management/commands/scrape_quotes.py:101-108 | no block is empty, and no block contains a delimiter |
| Scrape.GroupsCoverWalk | django_app/quotes_app/management/commands/scrape_quotes.py:94-114 | taken together, the blocks are the walked siblings in order with the delimiters removed: nothing is lost, repeated or reordered |
| Scrape.TwoBlocks | django_app/quotes_app/management/commands/scrape_quotes.py:101-108 | `[A, <hr width="50%">, B, C]` gives the blocks `[A]` and `[B, C]` |
| Scrape.AdjacentDelimiters | django_app/quotes_app/management/commands/scrape_quotes.py:101-106 | two rules in a row produce no block between them |
| Scrape.Records | django_app/quotes_app/management/commands/scrape_quotes.py:103 | one extracted record per block, in block order |
| Scrape.SaveNextBlock | django_app/quotes_app/management/commands/scrape_quotes.py:102-104 | saving the records of one more block continues the pass from the store it had reached |
| Scrape.TakeNode | django_app/quotes_app/management/commands/scrape_quotes.py:101-110 | one step of the walk: a delimiter processes and empties the pending block, any other node joins it, and the store and count follow the blocks processed so far |
| Scrape.ProcessPending | django_app/quotes_app/management/commands/scrape_quotes.py:102-104 | the pending block is processed and counted only when it is not empty |
| Scrape.WalkPage | django_app/quotes_app/management/commands/scrape_quotes.py:94-114 | the walking loop processes exactly the blocks of the walked siblings, in order, and counts them |
| Scrape.Handle | django_app/quotes_app/management/commands/scrape_quotes.py:76-123 | a run fails with the start-point error re-wrapped by the generic handler, or reports the count of blocks, the store after saving every block under the page's category, and each block's outcome |
| Scrape.Scrape | django_app/quotes_app/management/commands/scrape_quotes.py:76-123 | a run fails iff there is no start point, and then with "An unexpected error occurred during scraping: " followed by the start-point message |
| Scrape.CountIsBlocksNotNewQuotes | django_app/quotes_app/management/commands/scrape_quotes.py:104-117 | a second run over the same page reports the same count but adds no quote and leaves the store unchanged, so the "new quotes added" count counts blocks |

## Left out

- HTTP retrieval (lines 59-69): the page is given to the model already parsed. `requests` errors (lines 119-120) and the traceback printed before the re-wrap at line 122 are not modelled; the re-wrap itself (line 123) is modelled only for the start-point error, the one error the modelled code raises.
- The HTML parser itself: a parsed page is a `Node` tree. Comments, doctype and other special strings are not distinguished from text.
- The lookup of the quote cell, the second `<td>` of the `<table width="700">` (line 74): the model starts from that cell's children.
- The serialise-and-reparse of a block (lines 127-128): the model takes the reparsed block to be the block's own nodes. Any repair the parser makes to a fragment is not modelled. Neither is the lossy part of that round trip: `str()` of a string node writes its text without escaping, so decoded entities are parsed again (the text `x &lt;y` becomes a `<y>` tag, `&amp;copy;` becomes ©).
- Unicode NFKC and the general-category table are not modelled: `UnicodeDb` takes them as parameters. Surrogate code points cannot occur, because a Dafny `char` is a Unicode scalar value.
- CleanText.CleanIdempotentWhenNfkcStable: assumes NFKC leaves the cleaned text alone, because NFKC is a parameter here rather than the real normalisation.
- The non-string branch of `clean_text_for_db` (lines 13-14): every caller passes a string.
- The Django ORM: tables are sets and a map, ids are names, and `get_or_create` is a set or map update. Database errors and the error branch at lines 196-198 are not modelled. Neither are concurrent runs, timestamps, or other fields of the models.
- Console output (lines 57, 66, 117, 192-200): the outcome of each block is returned as a value instead.
- The quote text is treated as the unique key of Quote, as `get_or_create(text=...)` assumes. Duplicate rows that already exist in a real database are not modelled.
- The other scripts and the admin, views and models of the application are not part of this model.
