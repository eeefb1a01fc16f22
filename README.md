# cft core in Dafny

A model of the conversion core of `cft` (Citation to FootnoTe): the tool
rewrites every inline citation `([title](url))` of a Markdown document into a
footnote reference `[^host-n]` and keeps a block of footnote definitions
between the markers `<!-- footernotes:begin -->` and
`<!-- footernotes:end -->`.

The model follows the three core source files:

- `src/parser.ts` (module `Parser`): the two regular-expression `exec` loops
  `findInlineCitations` and `findExistingFootnotes` are methods with loop
  invariants. Each is proved equal to a function that scans the text. That
  function spells out the backtracking of the lazy groups in
  `/\(\[(.*?)\]\((.*?)\)\)/gs` and
  `/\[\^(.*?)\]:\s*\[(.*?)\]\((.*?)\)(?:\s*<blockquote>.*?<\/blockquote>)?/g`.
  `hasFootnotesSection`, `getFootnotesInsertPosition` and
  `createFootnotesSection` are functions.
- `src/utils.ts` (module `Utils`): `isValidUrl`, `extractDomain`,
  `generateFootnoteId` and `isMarkdownFile`. `new URL(...)` and
  `extractTextFragment` are the two fields of a `UrlApi` parameter.
- `src/converter.ts` (module `Converter`): `convertToFootnotes` is the
  method `ConvertToFootnotes`. It calls one method per loop of the source:
  - seeding the counters from the existing footnotes;
  - the first citation of every URL;
  - assigning identifiers;
  - collecting new footnotes and replacements;
  - sorting and splicing;
  - merging the footnotes.

  Each method is proved to compute a left fold over what its loop has
  consumed. Composed, the folds form the reference function `Convert`.

The lemma modules state what those functions promise:

- `ParserLemmas` and `FootnoteLemmas`:
  - the shape and order of what the scanners report;
  - a rendered footnotes block is read back as exactly its footnotes.
- `IdLemmas`:
  - counters and identifiers seeded from existing footnotes;
  - fresh identifiers are distinct and drawn above the seeded counters;
  - when the conversion throws.
- `NumberingLemmas`: the exact numbering. The URLs that get a fresh
  identifier are the cited URLs without one, each once, in order of first
  citation. The k-th of them with host h gets `[^h-(c+k)]`, where c is h's
  seeded counter. A reused URL raises no counter, and the numbers drawn
  leave no gaps.
- `RewriteLemmas`:
  - the new footnotes and replacements;
  - the sorted, right-to-left splicing equals a left-to-right rewrite;
  - the merge.
- `ConvertLemmas`: the whole conversion.

The model keeps these behaviours of the code:

- A text fragment that is the empty string gets no `<blockquote>`, because
  the code tests truthiness.
- A host name that is empty counts as no host.
- Seeding keeps the identifier of the last existing footnote for a URL.
- `hasFootnotesSection` accepts the two markers in either order. When the
  end marker comes first, the rewrite keeps the text between the markers
  twice. The model keeps this behaviour: `ReconciledHasSection` holds for
  both orders.

## Model

| member | source | states |
|---|---|---|
| Utils.IsValidUrl | src/utils.ts:11-18 | no contract of its own: true exactly when the URL parses with scheme `http:` or `https:`; `ValidUrlHasDomain` relates it to `ExtractDomain` |
| Utils.ExtractDomain | src/utils.ts:25-32 | no contract of its own: the host name of the parse, or none where parsing throws; `ValidUrlHasDomain` and `IdLemmas.AssignedSpec` state what the conversion relies on |
| Utils.GenerateFootnoteId | src/utils.ts:54-56 | no contract of its own: `[^`, the domain, `-`, the counter in decimal, `]`; `GenerateFootnoteIdInjective` and `IdLemmas.CounterSuffixOfGenerated` state that it is injective and read back |
| Utils.ValidUrlHasDomain | src/utils.ts:11-32 | a URL `isValidUrl` accepts always has a domain: the host name of the same parse |
| Utils.GenerateFootnoteIdInjective | src/utils.ts:54-56 | two identifiers `generateFootnoteId` writes are equal only for the same domain and the same counter |
| Utils.IsMarkdownFile | src/utils.ts:63-65 | true exactly when the name ends with `.` followed by `m` or `M` and then `d` or `D` |
| Utils.IsMarkdownFileExamples | src/utils.test.ts:49-60 | `document.md` and `document.MD` are Markdown names, `document.txt` is not |
| Parser.NextCitationMatch | src/parser.ts:42-46 | the match `exec` finds from `lastIndex`: a citation match at the least offset at or after it, with no match at any offset before |
| Parser.FindInlineCitations | src/parser.ts:40-61 | the `exec` loop returns the citations of the accepted matches, in order: title and URL non-empty, URL valid, title with line feeds turned into spaces |
| Parser.NextFootnoteMatch | src/parser.ts:70-75 | the footnote match at the least offset at or after `lastIndex`, with no match before it |
| Parser.FindExistingFootnotes | src/parser.ts:68-88 | the `exec` loop returns the footnotes of the accepted matches, in order, with the label re-wrapped as `[^label]` |
| Parser.HasFootnotesSection | src/parser.ts:95-100 | true exactly when both markers occur, in either order |
| Parser.GetFootnotesInsertPosition | src/parser.ts:109-118 | just after the first begin marker, with no begin marker earlier; the text length when there is none |
| ParserLemmas.CitationAtIsFirstBrackets | src/parser.ts:42 | the lazy groups settle on the first `](` after `([` and the first `))` after that |
| ParserLemmas.AcceptedCitationWellFormed | src/parser.ts:48-56 | a pushed citation spans `([` raw-title `](` url `))` in the text, with no `](` in the raw title and no `))` in the URL, and a valid URL |
| ParserLemmas.CitationsFromOrdered | src/parser.ts:45-58 | the citations reported from an offset start at or after it, in text order, with disjoint spans |
| ParserLemmas.InlineCitationsWellFormed | src/parser.ts:40-61 | every citation found is well formed, and the spans are ordered and disjoint |
| FootnoteLemmas.ExistingFootnotesWellFormed | src/parser.ts:68-88 | every footnote found has an identifier `[^label]`, and a title and URL on one line, non-empty; the URL is valid and free of `)` |
| FootnoteLemmas.LineMatch | src/parser.ts:70-84 | one rendered footnote line, followed by a line starting a footnote or the end marker, is read back as exactly that footnote |
| Parser.FootnoteLine | src/parser.ts:127-132 | no contract of its own: `id: [title](url)`, then ` <blockquote>…</blockquote>` only for a non-empty text fragment; `FootnoteLemmas.LineMatch` reads such a line back as exactly its footnote |
| Parser.CreateFootnotesSection | src/parser.ts:125-138 | no contract of its own: `FootnoteLemmas.CreateFootnotesSectionRoundTrip` reads the block back as its footnotes, and `ConvertLemmas.MarkersInBlock` finds both markers in it |
| FootnoteLemmas.CreateFootnotesSectionRoundTrip | src/parser.ts:125-138 | reading the block `createFootnotesSection` writes gives back exactly its footnotes, in order, for footnotes that survive the pattern |
| Converter.AssignedErrStays | src/converter.ts:89-94 | once the assignment loop throws, its error is the result of the whole loop |
| Converter.SeedTables | src/converter.ts:48-60 | the seeding loop computes the tables `Seeded` describes |
| Converter.CollectFirstCitations | src/converter.ts:79-83 | the first pass computes `FirstCitations` |
| Converter.CounterSuffix | src/converter.ts:53-55 | no contract of its own: the counter the lazy pattern `[^…-digits]` finds at its leftmost match, the first `-`, digits and `]` after `[^` on one line; `IdLemmas.CounterSuffixOfGenerated` reads back the counter of a generated identifier |
| Converter.AssignIds | src/converter.ts:89-100 | the assignment loop returns the tables `Assigned` describes, or the first error it throws; `NumberingLemmas.AssignedNumbers` states the numbers those tables hold |
| Converter.CollectReplacements | src/converter.ts:102-128 | the collection loop returns the new footnotes and the replacements `Collect` describes |
| Converter.ApplyAll | src/converter.ts:130-134 | sorting and splicing return `ApplyReplacements` of the sorted replacements |
| Converter.SortDescending | src/converter.ts:131 | the result has the input's length; `RewriteLemmas.SortDescendingSpec` states that it is ordered by descending start and a permutation of the input |
| Converter.ApplyReplacements | src/converter.ts:132-134 | no contract of its own: splices the replacements in the given order; `RewriteLemmas.ApplyReversedIsRewritten` and `RewriteLemmas.SortedApplyIsRewritten` state what it writes |
| Converter.Reconciled | src/converter.ts:145-161 | no contract of its own: rewrites the lines between existing markers, or appends a new block to the trimmed text; `ConvertLemmas.ReconciledHasSection` states that both markers remain |
| Converter.Convert | src/converter.ts:37-164 | no contract of its own: the reference composition of the loops; `ConvertLemmas.ConvertFails`, `ConvertLemmas.ConvertRewrites` and `ConvertLemmas.ConvertHasSection` state its outcomes |
| Converter.MergeFootnotes | src/converter.ts:136-142 | the merge loop returns `Merged` |
| Converter.ConvertToFootnotes | src/converter.ts:37-164 | the whole conversion returns `Convert`: the text unchanged when it has no citation, the error of a URL without a host, or the rewritten text with its footnotes block |
| IdLemmas.CounterSuffixOfGenerated | src/converter.ts:53-55 | the counter pattern reads back the counter of an identifier `generateFootnoteId` wrote |
| IdLemmas.SeededCounters | src/converter.ts:50-57 | after seeding, a host's counter is the largest counter its existing footnotes carry, and only such hosts have one |
| IdLemmas.SeededUrls | src/converter.ts:50-59 | the seeded URLs are exactly those of existing footnotes whose URL yields a host |
| IdLemmas.SeededLastWins | src/converter.ts:58 | the seeded identifier of a URL is that of its last existing footnote |
| IdLemmas.AssignStepExtends | src/converter.ts:90-98 | one assignment step keeps the extension invariant and gives the cited URL an identifier, or throws `Invalid URL` for a URL without host |
| IdLemmas.AssignedSpec | src/converter.ts:89-100 | the assignment loop throws only for a cited URL without host, naming it. Otherwise: every cited URL has an identifier; seeded identifiers are kept; counters never decrease; each fresh identifier is its host with a counter above the seeded one; fresh identifiers are pairwise distinct; only cited URLs are fresh. The exact numbers are in `NumberingLemmas.AssignedNumbers` |
| NumberingLemmas.NewUrlsSpec | src/converter.ts:79-100 | the URLs the assignment loop numbers are exactly the cited URLs with no identifier yet, each once, in order of first citation |
| NumberingLemmas.AssignedNumbers | src/converter.ts:89-100 | after the loop, each host's counter is its seeded counter plus the number of its newly numbered URLs. The k-th newly numbered URL of host h gets `[^h-(c+k)]`, c being h's seeded counter. Every other URL keeps exactly what seeding gave it, identifier or none |
| NumberingLemmas.AssignedNoGaps | src/converter.ts:96-97 | every number between a host's seeded counter and its final counter is the identifier of one newly numbered URL |
| NumberingLemmas.NumberingExample | src/converter.test.ts:42-54 | with an existing `[^d-5]` footnote and citations of its URL, a new URL twice and another new URL, the loop yields `[^d-5]`, `[^d-6]` and `[^d-7]` and leaves the counter of `d` at 7 |
| IdLemmas.AssignedNeverFails | src/converter.ts:91-94 | with non-empty host names and valid cited URLs the loop never throws |
| RewriteLemmas.FirstOccurrencesSpec | src/converter.ts:79-83 | the first citation of each URL: every cited URL once, in order of first citation |
| RewriteLemmas.FirstCitationsSpec | src/converter.ts:79-83 | `urlToFirstCitation` holds exactly the cited URLs, each mapped to its first citation |
| RewriteLemmas.CollectSpec | src/converter.ts:104-128 | one replacement per citation, in order, with its span and its URL's identifier; one new footnote per cited URL, in order of first citation, with the URL's identifier and the first citation's title |
| RewriteLemmas.SortDescendingSpec | src/converter.ts:131 | the sorted replacements are ordered by descending start and are a permutation of the input |
| RewriteLemmas.SortAscendingReversed | src/converter.ts:131 | sorting replacements with strictly ascending starts reverses them |
| RewriteLemmas.ApplyReversedIsRewritten | src/converter.ts:132-134 | splicing ordered, disjoint spans from last to first replaces each span of the original text by its identifier |
| RewriteLemmas.SortedApplyIsRewritten | src/converter.ts:130-134 | sorting then splicing the citations' replacements rewrites the text left to right, each citation replaced by its identifier |
| RewriteLemmas.MergedSpec | src/converter.ts:136-142 | the merged list starts with the existing footnotes unchanged. It lists every new footnote's URL. Entries after the existing ones are new footnotes with URLs the existing ones lack, each URL once |
| RewriteLemmas.MergedAppendsUnlisted | src/converter.ts:136-142 | with distinct new URLs, merging appends exactly the new footnotes whose URL is not listed yet, in order |
| ConvertLemmas.ConvertFails | src/converter.ts:89-94 | the conversion throws only `Invalid URL` for a cited URL that parses as http(s) with an empty host name |
| ConvertLemmas.ConvertNeverFails | src/converter.ts:89-94 | with a URL parser whose http(s) host names are never empty, the conversion never throws |
| ConvertLemmas.CitationSpans | src/parser.ts:54-55 | the citations' spans, as replacements, are non-empty, ordered and inside the text |
| ConvertLemmas.ConvertRewrites | src/converter.ts:86-161 | the output is `Reconciled` applied to the text with every citation replaced by its URL's identifier and to the merged list. With both markers present, the inside of the block is replaced where it stands. Otherwise the trimmed text is followed by a new block. The list holds the existing footnotes, then one new footnote per newly listed URL, in order of first citation |
| ConvertLemmas.ReconciledKeepsAround | src/converter.ts:146-158 | with both markers present, the text up to the end of the first begin marker starts the output and the text from the first end marker ends it |
| ConvertLemmas.ReconciledHasSection | src/converter.ts:145-161 | both the rewrite of an existing block and the appended new block leave both markers in the text |
| ConvertLemmas.MarkersInBlock | src/converter.ts:159-160 | a new block appended to the trimmed text holds both markers |
| ConvertLemmas.CitationOfParts | src/parser.ts:40-61 | text opening with `([`, a title without `(` and without line feeds, `](`, a URL without `)` and `))` is read as a citation with that title and URL, whatever follows |
| ConvertLemmas.RescanCounterexample | src/parser.ts:40-61 | a second run reads `([^a.com-1] [B](https://b.com))`, left by a first run, as a citation titled `^a.com-1] [B` |
| ConvertLemmas.ConvertHasSection | src/converter.ts:37-164 | a conversion that found citations returns a text with a footnotes block |

## Left out

- `src/index.ts`, the command-line front end, is not part of this model. It reads and writes files, prints messages and walks directories.
- `isUtf8` is left out: it depends on Node's `Buffer` decoding, not on the conversion.
- The URL Standard's parser is a parameter (`UrlApi.parse`). `HostsNonEmpty` names the standard's rule that http and https URLs have a non-empty host; `ConvertNeverFails` assumes it rather than deriving it from a parser.
- `extractTextFragment` is a parameter (`UrlApi.textFragment`). Its percent-decoding, HTML escaping and line-break handling (`escapeHtml`, `createBlockquote`, `convertNewlinesToBrTags`) are not modelled.
- Strings are sequences of characters. Offsets count characters rather than UTF-16 code units, so characters outside the Basic Multilingual Plane count once instead of twice.
- Utils.IsMarkdownFile: lower-cases ASCII letters only. No other character lower-cases to `.`, `m` or `d`, so the result is the same.
- IdLemmas.CounterSuffixOfGenerated: requires a host with no `]` and no line terminator. A URL Standard host has `]` only at the end of an IPv6 literal, and that host has no `-`.
- `Number.parseInt` on very long digit runs loses precision in the source. The model reads counters as unbounded integers.
- Host names such as `__proto__` or `constructor` interact with the prototype of the plain objects used as tables in the source. The model's maps have no prototype.
- The `originalText` field of the new footnotes is never read. The model drops it.
- Converter.SortDescending: the sort is a function on sequences rather than an in-place array sort. Its stability is not stated. It matters only for equal starts, and citation starts are distinct.
- Converter.ConvertToFootnotes: the source's single function is split into one method per loop, composed in the same order with the same tables.
- FootnoteLemmas.CreateFootnotesSectionRoundTrip: holds only for footnotes whose parts avoid the characters that end their pattern group, as `Rereadable` states. An identifier label, a title or a URL containing `]`, `)` or a line break is not read back as written.
- The conversion is not idempotent, and no idempotence property is stated. In `(([A](https://a.com)) [B](https://b.com))` the first run replaces the citation at offsets 1 to 21, so its output begins with `([^a.com-1] [B](https://b.com))`. `ConvertLemmas.RescanCounterexample` shows that a second run reads this as a citation titled `^a.com-1] [B` and replaces the first run's marker. The first run's output is stated by `ConvertLemmas.ConvertRewrites` in general; it is not computed for this particular input.
