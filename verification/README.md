# linux-command lookup core, in Dafny

This project models the data layer of a Raycast extension for looking up Linux command
documentation. That layer lives in `src/api.ts` and does four things:

- It fetches the command index from a CDN and keeps it in a persistent cache for seven days.
- It fetches one command's markdown reference page and keeps the parsed result for thirty days.
- It parses that page into a description, up to ten shell examples and cleaned, length-capped
  display text.
- It searches a list of commands by keyword, and clears the cache.

The model is pure:
- Strings are `seq<char>`.
- The cache is a `map<string, string>`.
- The clock is a parameter `now`.
- The network is a `Response` value passed in.
- JSON serialisation is an abstract `Codec` (a pair of functions). Round-trip properties assume it
  reads back what it writes (`Cache.Faithful`).

Modules follow the structure of the source:

| module | what it covers |
|---|---|
| `Text` | the JavaScript string primitives used: `startsWith`, `includes`, `trim`, `toLowerCase`, `split("\n")` |
| `Description` | the description loop of `parseCommandMarkdown` |
| `Examples` | the shell-block loop, with a reference definition that does not mention the loop's flags |
| `Cleaning` | the two global regular-expression replacements as scanners, and the 50,000-character cut |
| `Markdown` | `parseCommandMarkdown` put together, with worked examples |
| `Commands` | `transformCommand` and `searchCommands` |
| `Cache` | keys, time-to-live reads, `clearCache` as written and as intended |
| `Fetchers` | `fetchCommands` and `fetchCommandDetail` as transitions `(store, now, reply) -> (result, store', requested)` |

The model follows the code on these points, which a reader may not expect:

- A shell block is closed by any line starting with three backticks that is not itself a shell
  opener. For example, a `python`-tagged fence closes it; the block does not need a bare fence.
- The detail key puts a `-` between the prefix and the command name.
- `clearCache` enumerates the cache object's own property names, not the stored keys (see Findings).

## Model

| member | source | states |
|---|---|---|
| `Text.Contains` | src/api.ts:212 | `includes` is true exactly when the needle occurs at some position |
| `Text.Trim` | src/api.ts:145 | the result is no longer than the input and neither starts nor ends with ECMAScript whitespace or a line terminator |
| `Text.TrimUnique` | src/api.ts:145 | reference definition of `trim`: stripping any all-whitespace surround from a core that neither starts nor ends with whitespace gives exactly that core |
| `Text.TrimIdempotent` | src/api.ts:176 | trimming an already trimmed block changes nothing |
| `Text.ToLower` | src/api.ts:209 | lower-casing keeps the length and maps each character independently (ASCII letters shift by 32, all else stays) |
| `Text.Split` | src/api.ts:138 | splitting on newline gives at least one piece, and no piece contains a newline |
| `Text.JoinSplit` | src/api.ts:138 | the pieces joined with newlines give back the document |
| `Text.SplitJoin` | src/api.ts:138 | newline-free lines joined and split again give back the same lines |
| `Description.Scan` | src/api.ts:141-156 | the description is `""` or a trimmed line that does not start with `#`, and never a title marker |
| `Description.ScanEmptyIff` | src/api.ts:144-155 | the loop yields `""` iff no line is eligible, that is, no description line follows a marker line or an already seen title |
| `Description.ScanChoosesFirstEligible` | src/api.ts:144-155 | when some line is eligible, the loop yields the trim of the first eligible line |
| `Description.ExtractSpec` | src/api.ts:141-156 | from the start of a document: `""` iff no non-blank, non-heading, non-marker line comes after a `===`/`---` line; otherwise the first one, trimmed |
| `Description.NoTitleNoDescription` | src/api.ts:147-152 | with no marker line the description stays `""` |
| `Description.MarkerNeverChosen` | src/api.ts:147-150 | a marker line never becomes the description |
| `Examples.OpenerIsFence` | src/api.ts:167-174 | every shell opener also starts a fence |
| `Examples.LastFenceSpec` | src/api.ts:163-187 | the line found is the last fence line, and no later line is a fence; `None` iff no line is a fence |
| `Examples.DescribedAfterOpener` | src/api.ts:167-171 | a shell opener leaves a block open with an empty buffer and adds no example |
| `Examples.DescribedAfterFence` | src/api.ts:174-182 | any other fence leaves no block open and adds the example the reference definition assigns to that line |
| `Examples.DescribedAfterPlain` | src/api.ts:184-186 | a non-fence line is appended, with a newline, to the open block's buffer, and is dropped when no block is open |
| `Examples.RunDescribed` | src/api.ts:159-187 | after any prefix of the lines, the loop's flag, buffer and examples are the ones the flag-free reference description gives |
| `Examples.AllExamplesAreClosedBlocks` | src/api.ts:159-187 | the loop's examples are exactly the trimmed, non-empty texts between each closing fence and its nearest preceding fence when that is a shell opener, in document order |
| `Examples.ClosedBlocksTrimmed` | src/api.ts:176-178 | every reference example is non-empty and equal to its own trim |
| `Examples.ExamplesTrimmed` | src/api.ts:176-178 | every collected example is non-empty and trimmed |
| `Examples.RunAppend` | src/api.ts:163 | the loop over two consecutive parts is the loop over the second started in the state the first leaves |
| `Examples.RunCollects` | src/api.ts:184-186 | inside an open block, non-fence lines are appended verbatim, each followed by a newline |
| `Examples.ClosedBlock` | src/api.ts:167-182 | opener, fence-free body and closer add the trimmed body (if non-empty) and leave no block open, whatever the state before |
| `Examples.RunOpenLeavesExamples` | src/api.ts:167-171 | lines that are not closers never add an example, and an open block stays open |
| `Examples.UnclosedBlockIgnored` | src/api.ts:163-187 | a shell block still open at the end of the document contributes nothing |
| `Examples.ReopenDiscardsBuffer` | src/api.ts:167-170 | a second opener inside an open block discards the lines collected so far |
| `Cleaning.LazyClose` | src/api.ts:190 | the lazy `.*?-->` ends at the first `-->` reached without crossing a line terminator, and fails only when every later `-->` lies beyond a line terminator |
| `Cleaning.LazyCloseFinds` | src/api.ts:190 | the lazy match ends right after the first `-->` when no line terminator and no earlier `-->` precede it |
| `Cleaning.LinkAt` | src/api.ts:190 | a link is recognised at the front exactly when the text begins with some well-formed `[caption](target)`, and then it is that link |
| `Cleaning.StripRehype` | src/api.ts:190 | removing annotations never lengthens the text |
| `Cleaning.StripRehypeNoMatch` | src/api.ts:190 | where no `<!--rehype:` starts, or every later `-->` lies past a line terminator, the scan copies one character and moves on |
| `Cleaning.ReplaceLinks` | src/api.ts:190 | rewriting links never lengthens the text |
| `Cleaning.ReplaceLinksNoLink` | src/api.ts:190 | where no well-formed link begins, the scan copies one character and moves on |
| `Cleaning.ClosedBracketNoLink` | src/api.ts:190 | a `[` whose first `]` is not followed by `(` begins no link |
| `Cleaning.BracketNotLink` | src/api.ts:190 | a bracketed word without `[` inside and not followed by `(` is copied through whole, and the scan resumes after its `]` |
| `Cleaning.BracketedWordKept` | src/api.ts:190 | such a bracketed word, with plain text after it, comes out of cleaning unchanged |
| `Cleaning.OptionKept` | src/api.ts:190 | `Clean("[OPTION]...")` is `[OPTION]...` |
| `Cleaning.Clean` | src/api.ts:190 | the cleaned text is never longer than the original |
| `Cleaning.NoBracketNoRewrite` | src/api.ts:190 | text with no `[` has no link rewritten |
| `Cleaning.NoAnnotationNoStrip` | src/api.ts:190 | text with no `<!--rehype:` loses nothing to the first replacement |
| `Cleaning.CleanPlainText` | src/api.ts:190 | text with neither comes out of cleaning unchanged |
| `Cleaning.ReplaceLinksCopies` | src/api.ts:190 | a run without `[` is copied through unchanged before the scan continues |
| `Cleaning.ReplaceLinksRewrites` | src/api.ts:190 | a well-formed link at the scan position becomes `caption (target)` and the scan resumes after it |
| `Cleaning.StripRehypeCopies` | src/api.ts:190 | a run without `<` is copied through unchanged before the scan continues |
| `Cleaning.StripRehypeDeletes` | src/api.ts:190 | an annotation closed by its first `-->` on the same line is deleted with its delimiters |
| `Cleaning.NoAngleNoAnnotation` | src/api.ts:190 | text without `<` contains no annotation opener |
| `Cleaning.CleanLinkAndAnnotation` | src/api.ts:190 | annotations are stripped before links are rewritten: link, annotation, plain text becomes `caption (target)` plus the text |
| `Cleaning.CleanExample` | src/api.ts:190 | `Clean("[curl](https://x) <!--rehype:a=b-->text")` is `curl (https://x) text` |
| `Cleaning.Truncate` | src/api.ts:193-195 | up to 50,000 characters are kept whole; longer text keeps its first 50,000 followed by the 25-character notice |
| `Markdown.KeptExamples` | src/api.ts:201 | keeps `min(n, 10)` examples, the earliest ones in order, each non-empty and trimmed |
| `Markdown.KeptContent` | src/api.ts:189-195 | the kept content is at most 50,025 characters, and is exactly the cleaned text when the page is within 50,000 |
| `Markdown.ParseCommandMarkdown` | src/api.ts:137-203 | name passed through, no syntax, description trimmed and not a heading, the first ten examples in order, content bounded by 50,025 and equal to the cleaned text when the input is within 50,000 |
| `Markdown.ParsedExamplesAreFirstClosedBlocks` | src/api.ts:159-187 | the parsed examples are the first ten closed shell blocks of the reference definition |
| `Markdown.ParsedDescriptionFollowsTitle` | src/api.ts:141-156 | the parsed description is the first description line after a title marker, or `""` if there is none |
| `Markdown.ParsedContentIsCleanedPrefix` | src/api.ts:190-195 | the content is the cleaned text, or its first 50,000 characters plus the notice |
| `Markdown.AppendBlock` | src/api.ts:163-187 | appending a complete shell block to a document appends its trimmed body to the examples |
| `Markdown.AppendOneLineBlock` | src/api.ts:163-187 | a shell block holding one trimmed line adds exactly that line to the examples |
| `Markdown.TwoBlocks` | src/api.ts:163-187 | two one-line shell blocks in a row give their two lines, in order |
| `Markdown.TwoBlocksExample` | src/api.ts:163-187 | the lines ```` ```bash ````, `ls -l`, ```` ``` ````, ```` ```sh ````, `pwd`, ```` ``` ```` give exactly the examples `ls -l` and `pwd`, in order |
| `Markdown.DescriptionAfterMarker` | src/api.ts:144-155 | a description line right after a marker line is the description, whatever follows |
| `Markdown.DocumentLines` | src/api.ts:137-203 | a document made of newline-free lines parses its description and examples from exactly those lines |
| `Markdown.TwoBlocksDocument` | src/api.ts:137-203 | the document text "```bash\nls -l\n```\n```sh\npwd\n```" parses to the examples `ls -l` and `pwd` |
| `Markdown.DescriptionDocument` | src/api.ts:137-203 | the document text "=== \nfoo\n\n# Bar\nThis is bar.\n" parses to the description `foo` |
| `Markdown.DescriptionExample` | src/api.ts:144-155 | the lines `=== `, `foo`, an empty line, `# Bar`, `This is bar.` and an empty line give the description `foo` |
| `Commands.DetailUrl` | src/api.ts:85 | the page address is base, `/`, the name and `.md`, and the name can be read back from it |
| `Commands.DetailUrlInjective` | src/api.ts:85 | distinct names have distinct page addresses |
| `Commands.TransformCommand` | src/api.ts:80-87 | name, description and path are carried over and the address is the one the name determines |
| `Commands.TransformRoundTrip` | src/api.ts:80-87 | the raw record can be read back from its extension: name, description and path are kept |
| `Commands.TransformOnto` | src/api.ts:80-87 | every entry whose address matches its name is the extension of its own record |
| `Commands.TransformAll` | src/api.ts:49 | extending the records keeps their number and order, and each can be recovered |
| `Commands.Filter` | src/api.ts:211-213 | the filter keeps exactly the matching entries and never adds any |
| `Commands.SearchCommands` | src/api.ts:208-214 | an entry is in the result iff it is in the input and its lower-cased name or description contains the lower-cased keyword |
| `Commands.FilterAppend` | src/api.ts:211-213 | filtering a concatenation concatenates the filtered parts (order and multiplicity kept) |
| `Commands.SearchSingle` | src/api.ts:211-213 | a single entry is kept exactly when it matches |
| `Commands.SearchAppend` | src/api.ts:208-214 | searching a concatenation concatenates the searches |
| `Commands.SearchEmptyKeyword` | src/api.ts:208-214 | the empty keyword keeps every entry, in order |
| `Commands.SearchIgnoresCase` | src/api.ts:209 | a keyword and its lower-cased form give the same result |
| `Commands.SearchIdempotent` | src/api.ts:208-214 | searching a result again with the same keyword changes nothing |
| `Cache.DetailKey` | src/api.ts:93 | every detail key starts with the detail prefix, followed by `-` and the name |
| `Cache.DetailKeyIsNotListKey` | src/api.ts:3-4 | no detail key equals the list key `linux-commands-list` |
| `Cache.DetailKeyInjective` | src/api.ts:93 | distinct names have distinct detail keys |
| `Cache.Lookup` | src/api.ts:44-54 | a hit exactly when the key holds non-empty text that decodes and whose age is below the time-to-live; the hit returns the decoded data |
| `Cache.Put` | src/api.ts:66-72 | the written key holds the encoded entry with data and timestamp; every other key keeps its presence and value |
| `Cache.PutThenLookup` | src/api.ts:66-72 | an entry written at time `t` reads back while `now - t` is below the time-to-live, and misses from the moment the age equals it |
| `Cache.PutOtherKey` | src/api.ts:123-129 | writing one key leaves every read of another key unchanged |
| `Cache.RemoveDetailKeys` | src/api.ts:224-228 | exactly the enumerated names that carry the detail prefix are removed; every other entry keeps its value |
| `Cache.ClearCache` | src/api.ts:219-229 | the list entry is gone and a detail entry is removed only if its key was enumerated; everything else is kept |
| `Cache.ClearAll` | src/api.ts:216-229 | the list entry and every detail entry are gone; unrelated keys are kept with their values |
| `Cache.ClearCacheWithStoredKeys` | src/api.ts:223 | when the enumeration does cover the stored keys, the code clears what it is meant to |
| `Cache.ClearAllMisses` | src/api.ts:216-229 | after intended clearing, both the list read and every detail read miss |
| `Cache.ClearCacheKeepsDetails` | src/api.ts:223-227 | as written, a detail entry reads as before clearing when no enumerated name has the detail prefix |
| `Cache.ClearCacheCounterexample` | src/api.ts:223-227 | a fresh page entry for `ls` is still served after clearing as written, and gone after intended clearing |
| `Fetchers.FetchCommands` | src/api.ts:42-75 | no request iff the list entry is fresh and readable, then the cached records extended; otherwise the index address, and then no reply is a network error, a non-ok status the list-status error, an unreadable body its own error, and an ok body the transformed records, written under the list key with the clock reading; failures leave the cache alone |
| `Fetchers.FetchCommandDetail` | src/api.ts:92-132 | no request iff the page entry is fresh and readable; otherwise the page address, and then no reply is a network error, 404 is `NotFound`, another non-ok status the detail-status error, and an ok reply the parse of the body, written under the detail key with the clock reading; failures leave the cache alone |
| `Fetchers.ListServedFromCache` | src/api.ts:44-72 | a list fetched from the network is returned again, without a request and without a write, by any fetch less than seven days later |
| `Fetchers.ListExpires` | src/api.ts:48 | a list entry seven days old or older makes the fetch request the index again |
| `Fetchers.UnreadableListEntryIgnored` | src/api.ts:45-54 | an empty or undecodable list entry behaves exactly like an absent one |
| `Fetchers.DetailServedFromCache` | src/api.ts:96-129 | a page fetched from the network is returned again, without a request, by any fetch less than thirty days later |
| `Fetchers.DetailExpires` | src/api.ts:100 | a page entry thirty days old or older makes the fetch request the page again |
| `Fetchers.UnreadableDetailEntryIgnored` | src/api.ts:97-106 | an empty or undecodable page entry behaves exactly like an absent one |
| `Fetchers.DetailRequestMatchesCatalogue` | src/api.ts:109 | the page a detail fetch requests is the address the catalogue entry advertises |
| `Fetchers.FetchersUseSeparateKeys` | src/api.ts:93 | a page fetch never changes what the list read sees, and a list fetch never changes what a page read sees |
| `Fetchers.ClearAllForcesRequests` | src/api.ts:216-229 | after intended clearing, both fetchers request from the network |
| `Fetchers.ClearCacheStillServesDetail` | src/api.ts:223-227 | after clearing as written, a fresh page is still answered from the cache |

## Left out

- The user interface (`src/*.tsx`), HTTP itself, JSON syntax and the asynchronous scheduling of calls
  are not modelled. Replies are `Fetchers.Response` values, serialisation is `Cache.Codec`, and each
  fetch is one atomic transition. Concurrent fetches racing on the same key are not modelled.
- Fetchers.FetchCommands: uses one clock reading for both the freshness test and the written
  timestamp. The source reads the clock separately for each; the two readings differ by the time the
  request takes.
- Fetchers.FetchCommandDetail: same single clock reading as the list fetch.
- Fetchers.FetchCommands: the reply body is either rejected (`None`, standing for `response.json()`
  failing) or a sequence of records in `Object.values` order. A body that parses but is not an
  object of string records is not modelled. For `null` the source writes the cache and then throws
  at `Object.values`. For other values (a number, a string, an array, or a record holding `null`) it
  writes the cache and then returns whatever `Object.values(...).map(transformCommand)` yields, or
  throws inside `transformCommand`.
- Fetchers.FetchCommandDetail: reading the body (`response.text()`) is taken never to fail.
- Cache.Lookup: timestamps are integers. A decoded entry whose timestamp is not a number, or whose
  data is malformed, is folded into the codec's `None` or into what `decode` returns.
- Text.ToLower: folds only ASCII `A`-`Z`. JavaScript's `toLowerCase` follows full Unicode case
  mapping; a Unicode simple or special case table is not part of this model.
- Cleaning.Truncate: counts characters (Unicode scalar values). The source's `length` and
  `substring` count UTF-16 code units, so for text with characters outside the Basic Multilingual
  Plane the cut falls earlier in the source.
- Cleaning.StripRehype: its own contract states only the length bound. Each step of the scan is
  pinned by `Cleaning.StripRehypeDeletes` (an annotation closed on its line is deleted) and
  `Cleaning.StripRehypeNoMatch` (otherwise one character is copied); there is no single closed-form
  description of the whole result.
- Cleaning.ReplaceLinks: its own contract states only the length bound. Each step of the scan is
  pinned by `Cleaning.ReplaceLinksRewrites` (a well-formed link is rewritten) and
  `Cleaning.ReplaceLinksNoLink` (otherwise one character is copied).
- Cleaning.Clean: its own contract states only the length bound; what it does is stated by the
  step lemmas of the two scans and by `Cleaning.CleanLinkAndAnnotation` and
  `Cleaning.BracketedWordKept`.
- Error messages are modelled as the `Fetchers.FetchError` constructors. The message text is not
  modelled.
- The `syntax` field of a command detail is declared but never set by the source; it is always
  `None` here.
- The persistent cache's own capacity limit and eviction are not modelled. The store keeps
  whatever is written.
- What `Object.keys(cache)` returns is not modelled: it depends on the cache class's fields, which
  are not part of this model. `Cache.ClearCache` takes the enumerated names as a parameter.

## Findings

| source | as written | input that shows it | evidently intended | confidence | as-written member | corrected member |
|---|---|---|---|---|---|---|
| src/api.ts:223-227 | `clearCache` enumerates `Object.keys(cache)`, the own property names of the cache object, and removes those that start with the detail prefix | a cache holding a fresh entry under `linux-command-detail-ls`, whose object has no property name starting with `linux-command-detail`: after clearing, `fetchCommandDetail("ls")` is still answered from the cache | remove every stored key that starts with the detail prefix, as the comments at src/api.ts:217 and src/api.ts:222 say | medium (depends on the cache class's fields; not executed) | `Cache.ClearCacheCounterexample` | `Cache.ClearAll` |
