# throwaway-email-checker, modelled in Dafny

throwaway-email-checker is a TypeScript library and a set of maintenance
scripts. The library side is `isValidEmail`. It checks an address's length,
its single `@` and the characters and dots of both halves, then its
top-level domain against a TLD set. It can also reject an address whose
domain is in a set of disposable-mail domains. A second, minimal validator
checks only lengths and the `@`.

The maintenance side builds those two sets:
- a TLD script fetches IANA's list, refuses it if a name holds an unexpected
  character, and generates an `isTldValid` function made of `if` statements
  of at most 20 tests each;
- the aggregation scripts fetch allow lists and blocklists in plain-text, JSON
  and CSV form, keep the names that pass `validateDomain`, and merge them
  into `data/allow_list.txt` and `data/domains.txt`;
- a merged blocklist name is skipped when it is allow-listed.

The model has one module per source file:

| module | file | models |
|---|---|---|
| `EmailValidation` | `validate_email.dfy` | `src/index.ts`, the two character loops as a method proved against a predicate |
| `StructuralValidation` | `validate_structure.dfy` | `src/validation.ts` |
| `DomainValidation` | `validate_domain.dfy` | `utils/validate-domain.ts`, the label loop as a method |
| `DomainExtraction` | `extract_domain.dfy` | `aggregation/utils/extract-domain.ts`, errors as a `Result` |
| `LineFiles` | `line_files.dfy` | the two line-file parsers and the rendered-file round trip |
| `Registry` | `registry.dfy` | what the merges share: reload, the admitted names, the two text artifacts |
| `AggregationLists` | `aggregation_lists.dfy` | `aggregation/utils/add-to-list.ts`, a class over its module-level sets |
| `AddToList` | `add_to_list.dfy` | `utils/add-to-list.ts`, likewise |
| `FetchData` | `fetch_data.dfy` | `fetchData`, identical in `aggregation/fetch/domains.ts` and `scripts/fetch-domains.ts` |
| `FetchDomains` | `fetch_domains.dfy` | the two-phase `fetchDomains` of `aggregation/fetch/domains.ts` |
| `FetchScript` | `fetch_script.dfy` | the baseline loading of `scripts/fetch-domains.ts` |
| `TldGeneration` | `tld_generation.dfy` | `scripts/fetch-tlds.ts` |

Two modules are shared:
- `Text` (`text.dfy`) holds the JavaScript string operations the code relies
  on: `trim`, `toLowerCase`, `split`, `join`, `indexOf`, `filter`, `map` and
  `new Set`.
- `Ordering` (`ordering.dfy`) holds the order the registry files are sorted in.

The generated data modules are inputs of the model, not part of it. The TLD
set and the disposable-domain set are parameters (`tldSet`, `domainSet`). A
file is an `Option<string>`: `None` when it does not exist. A fetched
response is a value holding its status, its body and its parsed JSON.

## Model

| member | source | states |
|---|---|---|
| EmailValidation.ValidateEmail | src/index.ts:39-144 | The verdict equals IsValidEmail. An accepted address has 6 to 254 characters and exactly one `@`, with 1 to 64 characters before it and at least one after. With the flag on, its lower-cased domain is not disposable. No local-part dot comes first, comes last or follows another dot; every other local character is allowed, because the test at lines 88-89 always holds. Every domain-part character is a letter, digit, `-` or `.`, with the same dot rules. The last dot lies at least two places after `@`, is followed by at least two characters and, with the flag on, by a known TLD. |
| EmailValidation.OnlyCandidateIsFirstAt | src/index.ts:51-59 | Once the length is in range, an address is valid exactly when its first `@` exists and it is accepted there. |
| EmailValidation.AcceptedOnlyAtSoleAt | src/index.ts:51-59 | When an address has a single `@`, validity is decided at that position alone. |
| EmailValidation.FlagsOnlyRestrict | src/index.ts:65-141 | An address accepted with both checks on is accepted under every flag setting. |
| EmailValidation.UnusedSetsDoNotMatter | src/index.ts:65-141 | With `validateTld` off the TLD set is never consulted; with `blockDisposables` off the disposable set is never consulted. |
| EmailValidation.DisposableRejected | src/index.ts:65-70 | With `blockDisposables` on, an address whose lower-cased domain is disposable is rejected, whatever the other flag. |
| EmailValidation.ValidEmailShape | src/index.ts:45-132 | The 253-character domain bound is implied by the 254-character total bound. A valid address has at most 64 local characters, its last dot lies between `@`+2 and the length minus 3, and everything after that dot is letters, digits or `-`. |
| EmailValidation.LastDotInDomainPart | src/index.ts:129-137 | When the domain part contains a dot, the address's last dot is the domain part's last dot, and the text after it is the TLD. |
| EmailValidation.ValidFromParts | src/index.ts:45-141 | For halves without `@`, `local@domain` is accepted exactly when its length is 6 to 254, the local half has 1 to 64 characters and passes the local rules, the domain half has 1 to 253 characters, passes the domain rules and (with the flag on) is not disposable, and its last dot lies after its first character and before its last two, followed (with the flag on) by a known TLD. |
| EmailValidation.ValidAtSoleAt | src/index.ts:45-141 | At an address's only `@`, validity is the same verdict on the text before and after it. |
| EmailValidation.TldOkAfter | src/index.ts:129-141 | The TLD test at the `@` reads only the domain part: its last dot is not its first character, at least two characters follow, and with the flag on they form a known TLD. |
| EmailValidation.CheckLocalPart | src/index.ts:79-100 | The local-part loop accepts exactly when no dot of the local part comes first, comes last or follows another dot. |
| EmailValidation.CheckDomainPart | src/index.ts:109-126 | The domain-part loop accepts exactly when every character is a letter, digit, `-` or `.`, and no dot comes first, comes last or follows another dot. |
| EmailValidation.ExamplePlainAccepted | test/validator.test.ts:5 | `local@domain.com` is accepted under the three flag settings the tests use. |
| EmailValidation.ExampleUnusualLocalPart | test/validator.test.ts:35 | `much.”more\ unusual”@gmail.com` is accepted: only the dots of the local part are checked. |
| EmailValidation.ExampleUnknownTld | test/validator.test.ts:6 | `local@domain.con` is rejected with TLD validation on and accepted with it off. |
| EmailValidation.ExampleNumericTldAccepted | test/validator.test.ts:25 | `email@123.123.123.123` is accepted with TLD validation off. |
| EmailValidation.ExampleNumericTldRejected | test/validator.test.ts:25 | `email@123.123.123.123` is rejected when `123` is not a known TLD. |
| EmailValidation.ExampleLocalDotRules | test/validator.test.ts:11-14 | A local part starting with a dot (line 11), or holding `..` (line 14), is rejected under every flag setting. |
| EmailValidation.ExampleDomainDotRules | test/validator.test.ts:16-17 | A domain part holding `..`, or ending in a one-letter TLD, is rejected under every flag setting. |
| StructuralValidation.ValidateStructure | src/validation.ts:6-26 | The verdict is true exactly when the address has 3 to 254 characters and a single `@` with 1 to 64 characters before it and 1 to 253 after it. |
| StructuralValidation.FullValidatorIsStricter | src/validation.ts:10-23 | Every address the full validator accepts, under any flags, passes the minimal validator. |
| StructuralValidation.MinimalIsWeaker | src/validation.ts:10 | `a@b` passes the minimal validator and fails the full one under every flag setting. |
| DomainValidation.ValidateDomain | utils/validate-domain.ts:3-44 | The verdict equals IsValidDomain: at most 253 characters, at least two dot-separated labels, every label 1-63 letters, digits or hyphens starting and ending with a letter or digit, and a lower-cased last label in the TLD set. |
| DomainValidation.LabelsAgree | utils/validate-domain.ts:20-31 | The label and TLD checks give the same answer on a list of labels and on the same labels lower-cased. |
| DomainValidation.EdgeLabels | utils/validate-domain.ts:14-31 | A string starting with a character other than a letter or digit has a first label that fails the label pattern; likewise at its end with its last label. |
| DomainValidation.FramingRejects | utils/validate-domain.ts:9-11 | A leading or trailing dot, or leading or trailing whitespace, makes a non-empty string invalid. |
| DomainValidation.LabelChecksSubsumeFinalChecks | utils/validate-domain.ts:26-41 | When every label matches the label pattern, the string has no `..` and no character outside `[a-z0-9.-]`: the checks at lines 34-41 never reject. |
| DomainValidation.ValidDomainShape | utils/validate-domain.ts:4-41 | A valid domain is 1-253 characters, has no dot at either end, equals its trimmed form, and has no `..` and only `[a-z0-9.-]` characters. |
| DomainValidation.MatchesLabelPatternLower | utils/validate-domain.ts:26 | The case-insensitive label pattern gives the same answer for a label and its lower-cased form. |
| DomainValidation.ValidDomainIgnoresCase | utils/validate-domain.ts:20-31 | A string and its lower-cased form are valid or invalid together. |
| DomainValidation.NormalizePreservesValidity | utils/validate-domain.ts:9 | A valid domain stays valid after the callers' `trim().toLowerCase()`. |
| DomainExtraction.ExtractDomain | aggregation/utils/extract-domain.ts:1-25 | MissingAt exactly when the trimmed, lower-cased address has no `@`. EmptyDomain exactly when its first `@` is its last character. Otherwise the text after the first `@` is the result exactly when it matches the domain pattern, and InvalidDomainFormat is returned when it does not. A result has no `@` and contains a dot. |
| DomainExtraction.DomainWithoutAt | aggregation/utils/extract-domain.ts:11-20 | A string of the domain pattern contains a dot and no `@`. |
| DomainExtraction.TrailingDotStripIsDead | aggregation/utils/extract-domain.ts:17-23 | A string of the domain pattern never ends in a dot, so the strip at line 23 never fires. |
| DomainExtraction.ExtractedIsLowerCase | aggregation/utils/extract-domain.ts:3-11 | An extracted domain is lower case. |
| DomainExtraction.ExtractedDomainValidates | aggregation/utils/extract-domain.ts:17 | An extracted domain of at most 253 characters, with labels of at most 63 characters and a known last label, passes validateDomain. |
| DomainExtraction.LongGroupExtractedButInvalid | aggregation/utils/extract-domain.ts:17 | `a.` followed by 64 letters matches the extractor's pattern but fails validateDomain's 63-character label limit. |
| LineFiles.ParseList | aggregation/utils/add-to-list.ts:99 | The comment-dropping parser returns at most one entry per line, each non-empty, trimmed, lower case and on one line. |
| LineFiles.ParseListMembers | aggregation/utils/add-to-list.ts:99 | The entries are exactly the normal forms (trimmed, lower-cased) of the lines that are not blank and do not start with `#` before trimming. |
| LineFiles.ParseAllowList | utils/add-to-list.ts:18 | The comment-keeping parser returns at most one entry per line, each non-empty, trimmed, lower case and on one line. |
| LineFiles.ParseAllowListMembers | utils/add-to-list.ts:18 | The entries are exactly the non-empty normal forms of the lines, `#` lines included. |
| LineFiles.NormalizedLine | aggregation/utils/add-to-list.ts:99 | A non-blank line, once trimmed and lower-cased, is a stored entry. |
| LineFiles.NormalizeKeepsHash | aggregation/utils/add-to-list.ts:99 | A line starting with `#` still starts with `#` once normalised. |
| LineFiles.ParseListWithinAllowList | utils/add-to-list.ts:18-25 | Every entry the comment-dropping parser finds, the comment-keeping parser finds too. |
| LineFiles.AllowListExtrasAreComments | utils/add-to-list.ts:18-25 | Every entry only the comment-keeping parser finds starts with `#`. |
| LineFiles.Commented | aggregation/utils/add-to-list.ts:71 | `# - url` of a one-line URL is a line the parser skips. |
| LineFiles.CommentLines | aggregation/utils/add-to-list.ts:156-158 | One commented line per URL, each skipped by the parser when the URLs are one line each. |
| LineFiles.RenderedLines | aggregation/utils/add-to-list.ts:154-161 | The lines of a rendered file are the header lines followed by the entries, or by one empty line when there are none. |
| LineFiles.ParseRendered | aggregation/utils/add-to-list.ts:154-161 | A file of header groups followed by entries, one per line, parses back to exactly those entries in order. |
| LineFiles.RenderedKept | aggregation/utils/add-to-list.ts:154-161 | Of the lines of a rendered file, the parser's line test keeps exactly the entries, in order. |
| LineFiles.HeaderGroupsFlatten | aggregation/utils/add-to-list.ts:154-159 | Every line of a header made of header groups is skipped by the parser. |
| LineFiles.ParseSingleLine | aggregation/utils/add-to-list.ts:99 | A single line parses to its normal form when it is kept, and to nothing otherwise. |
| LineFiles.IndentedLine | aggregation/utils/add-to-list.ts:99 | A stored entry behind one space passes the untrimmed `#` test, and normalises back to the entry. |
| LineFiles.IndentedCommentLeaks | aggregation/utils/add-to-list.ts:99 | The line ` #x` is stored as `#x`, and the line `#x` parses to nothing. |
| Ordering.LexLeReflexive | aggregation/utils/add-to-list.ts:63 | The sort order puts every string no later than itself. |
| Ordering.LexLeTotal | aggregation/utils/add-to-list.ts:63 | Any two strings are comparable in the sort order. |
| Ordering.LexLeAntisymmetric | aggregation/utils/add-to-list.ts:63 | Two strings each no later than the other are equal. |
| Ordering.LexLeTransitive | aggregation/utils/add-to-list.ts:63 | The sort order is transitive. |
| Ordering.SortedList | aggregation/utils/add-to-list.ts:63 | `[...set].sort()` lists every element of the set once, nothing else, in strictly increasing order. |
| Ordering.StrictlySortedUnique | aggregation/utils/add-to-list.ts:112 | Two strictly increasing lists with the same elements are equal: the sorted listing of a set is unique. |
| Registry.Accepted | aggregation/utils/add-to-list.ts:56-61 | A merge adds only names among its candidates. |
| Registry.AcceptedExactly | aggregation/utils/add-to-list.ts:105-110 | A merge adds exactly the candidates that validate and are not excluded, whatever their order or repetition. |
| Registry.AcceptedSnoc | aggregation/utils/add-to-list.ts:105-110 | One more candidate adds that candidate when it is admissible, and nothing otherwise. |
| Registry.AcceptedStep | aggregation/utils/add-to-list.ts:105-110 | Extending the candidates by the next one extends the admitted set by that candidate when it validates and is not excluded, and by nothing otherwise. |
| Registry.AcceptedIgnoresInvalidExclusions | aggregation/utils/add-to-list.ts:107 | Two exclusion sets that agree on every valid name exclude the same candidates. |
| Registry.NormalizedPrefix | aggregation/utils/add-to-list.ts:56-57 | Normalising one more candidate appends its normal form. |
| Registry.FoldStep | aggregation/utils/add-to-list.ts:56-61 | One turn of a merge loop keeps the set equal to the baseline plus the admitted prefix of the candidates. |
| Registry.ValidNormalizedIsEntry | aggregation/utils/add-to-list.ts:57-59 | A normalised candidate that validates is stored unchanged by the parser. |
| Registry.AcceptedAreEntries | aggregation/utils/add-to-list.ts:56-61 | Every name a merge admits from normalised candidates is stored unchanged by the parser. |
| Registry.MergedCanonical | aggregation/utils/add-to-list.ts:97-110 | A merge into a set of stored entries leaves a set of stored entries. |
| Registry.AllowlistLayout | aggregation/utils/add-to-list.ts:68-73 | The allow-list text consists of its header groups (a blank line, two comments, the URLs, a blank line), then the domains, one per line. |
| Registry.ListLayout | aggregation/utils/add-to-list.ts:154-161 | The list text consists of its header groups (two comments, three URL groups, the stamp, a blank line), then the domains, one per line. |
| Registry.CommentHeaderLine | aggregation/utils/add-to-list.ts:154-155 | A one-line comment is skipped by the parser. |
| Registry.BlankHeaderLine | aggregation/utils/add-to-list.ts:160 | The blank line is skipped by the parser. |
| Registry.AllowCommentLine1 | aggregation/utils/add-to-list.ts:69 | The first allow-list comment is skipped by the parser. |
| Registry.AllowCommentLine2 | aggregation/utils/add-to-list.ts:70 | The second allow-list comment is skipped by the parser. |
| Registry.AllowHeaderLines | aggregation/utils/add-to-list.ts:68-72 | Every allow-list header line is skipped by the parser when the URLs are one line each. |
| Registry.ListHeaderLines | aggregation/utils/add-to-list.ts:154-160 | Every list header line is skipped by the parser when the URLs and the stamp are one line each. |
| Registry.SortedListElements | aggregation/utils/add-to-list.ts:63 | The sorted listing of a set, read back into a set, is that set. |
| Registry.AllowlistRoundTrip | aggregation/utils/add-to-list.ts:68-73 | The allow list written from a set of stored, non-`#` entries parses back, with the line-51 parser, to the set's sorted listing and so to the set. |
| Registry.ListRoundTrip | aggregation/utils/add-to-list.ts:154-161 | The disposable list written from a set of stored, non-`#` entries parses back, with the line-99 parser, to the set's sorted listing and so to the set. |
| Registry.StampLine | aggregation/utils/add-to-list.ts:159 | The stamp comment of a one-line stamp is skipped by the parser. |
| Registry.ValidDomainIsNoComment | utils/add-to-list.ts:18-33 | A valid domain never starts with `#`, so the two parsers' extra `#` entries never exclude one. |
| Registry.AllowParsersExcludeAlike | utils/add-to-list.ts:18-33 | An allow set read by the comment-keeping parser excludes the same candidates as one read by the comment-dropping parser. |
| AggregationLists.Lists.constructor | aggregation/utils/add-to-list.ts:9-11 | The module starts with two empty sets and a size of 0. |
| AggregationLists.Lists.LoadAllowlist | aggregation/utils/add-to-list.ts:49-53 | A present allow-list file replaces the allow set with its parsed entries; nothing else changes. |
| AggregationLists.Lists.LoadDisposables | aggregation/utils/add-to-list.ts:97-102 | A present list file replaces the disposable set with its parsed entries and records how many there were; the allow set is unchanged. |
| AggregationLists.Lists.MergeIntoAllowlist | aggregation/utils/add-to-list.ts:55-61 | The allow set grows by exactly the normalised candidates that validate; nothing else changes. |
| AggregationLists.Lists.MergeIntoDisposables | aggregation/utils/add-to-list.ts:104-110 | The disposable set grows by exactly the normalised candidates that validate and are not allow-listed; nothing else changes. |
| AggregationLists.Lists.AddToAllowlist | aggregation/utils/add-to-list.ts:47-85 | The allow set becomes the reloaded baseline plus the valid normalised candidates. The file text is the sorted set under the header, and it parses back to the sorted set. |
| AggregationLists.Lists.AddToDisposableList | aggregation/utils/add-to-list.ts:87-177 | The allow set is reloaded. The disposable set becomes the reloaded baseline, never shrunk, plus the valid, non-allow-listed normalised candidates. The list text is the sorted set under its header, and it parses back to the sorted set. |
| AddToList.Lists.constructor | utils/add-to-list.ts:9-11 | The module starts with two empty sets and a size of 0. |
| AddToList.Lists.LoadAllowlist | utils/add-to-list.ts:16-20 | A present allow-list file replaces the allow set with the entries the comment-keeping parser finds; nothing else changes. |
| AddToList.Lists.LoadDisposables | utils/add-to-list.ts:23-28 | A present list file replaces the disposable set with the entries the comment-dropping parser finds and records how many there were; the allow set is unchanged. |
| AddToList.Lists.LoadBaselines | utils/add-to-list.ts:15-28 | The allow set is reloaded with the comment-keeping parser, the disposable set with the comment-dropping one, and the size is the disposable file's entry count. |
| AddToList.Lists.MergeIntoDisposables | utils/add-to-list.ts:30-36 | The disposable set grows by exactly the normalised candidates that validate and are not allow-listed; nothing else changes. |
| AddToList.Lists.AddToList | utils/add-to-list.ts:13-100 | The disposable set becomes the reloaded baseline plus the valid, non-allow-listed normalised candidates. The list text, which names the allow-list, text and JSON sources, is the sorted set under the header and parses back to it. |
| FetchData.PlainLines | aggregation/fetch/domains.ts:41-45 | Plain mode gives at most one name per line, each a stored entry: trimmed, lower case, not blank, not starting with `#`. |
| FetchData.PlainLinesMembers | aggregation/fetch/domains.ts:41-45 | The names are exactly the normal forms of the body's lines that are non-empty and do not start with `#` once normalised. |
| FetchData.RemoveQuotes | aggregation/fetch/domains.ts:36 | No `"` is left. The length is unchanged exactly when there was none, and then the text is unchanged. |
| FetchData.RemoveQuotesPiecewise | aggregation/fetch/domains.ts:36 | Removal distributes over concatenation, and a `"` between two texts vanishes while both sides are kept in order; with the identity on quote-free text this fixes the result for every input. |
| FetchData.CsvField | aggregation/fetch/domains.ts:34-37 | A field exists exactly when the line has column `col`; it is that column trimmed, lower-cased and with its `"` removed, so it has no `"` and no `,`. |
| FetchData.AllSome | aggregation/fetch/domains.ts:29-38 | A list of optional fields gives a list exactly when every field is present, and then the fields in order. |
| FetchData.CsvColumn | aggregation/fetch/domains.ts:29-38 | A column exists exactly when every kept line has the field; then it is the lines' fields in order. |
| FetchData.CsvNames | aggregation/fetch/domains.ts:29-38 | CSV mode gives the column of the plain-mode lines when every one has it, and no names when one lacks it; no name has a `"` or `,`. |
| FetchData.Fetch | aggregation/fetch/domains.ts:11-51 | A failed response gives no names, and so does an unparsable body in JSON mode. A parsed body in JSON mode gives the selected array. CSV mode gives the column of the plain-mode lines when every one has it, and no names otherwise; those names have no `"` or `,`. Plain mode gives the plain-mode lines, which are stored entries. |
| FetchData.ZeroColumnIsPlain | scripts/fetch-domains.ts:36 | A column of 0, like no column, reads the body in plain mode. |
| FetchData.EmptyKeyIsText | aggregation/fetch/domains.ts:19 | An empty key is falsy: the source is read like one without a key. |
| FetchData.PlainLinesWithinParseList | aggregation/fetch/domains.ts:41-45 | Every plain-mode name is also an entry the comment-dropping file parser finds. |
| FetchData.PlainSingleLine | aggregation/fetch/domains.ts:41-45 | A one-line body gives its normal form when that is a data line, and nothing otherwise. |
| FetchData.IndentedCommentFetchedAway | aggregation/fetch/domains.ts:43-45 | ` #x` gives nothing in plain mode, where `#` is checked after trimming, but `#x` from the file parser, which checks before trimming. |
| FetchDomains.ConcatCover | aggregation/fetch/domains.ts:64-107 | Every name of every batch is among the concatenated names. |
| FetchDomains.FetchedNamesCover | aggregation/fetch/domains.ts:64-107 | Every name any source yields is among the fetched names. |
| FetchDomains.FetchedNamesPrefix | aggregation/fetch/domains.ts:64-107 | One more source appends its names. |
| FetchDomains.AcceptedAppend | aggregation/fetch/domains.ts:64-72 | Merging two batches of names admits what merging each batch admits. |
| FetchDomains.PlainSources | aggregation/fetch/domains.ts:65 | Every allow source is read with no key and no column. |
| FetchDomains.Aggregation.constructor | aggregation/fetch/domains.ts:8-9 | The module starts with two empty sets. |
| FetchDomains.Aggregation.LoadAllowlist | aggregation/fetch/domains.ts:55-61 | A present allow-list file replaces the allow set; the disposable set is unchanged. |
| FetchDomains.Aggregation.AddAllowed | aggregation/fetch/domains.ts:66-70 | The allow set grows by exactly the source's names that validate. This is the awaited test, the corrected behaviour of the row under "## Findings"; as written, those lines admit every name. |
| FetchDomains.Aggregation.AddDisposable | aggregation/fetch/domains.ts:79-84 | The disposable set grows by exactly the source's names that validate and are not allow-listed. This is the awaited test, the corrected behaviour of the row under "## Findings"; as written, those lines admit every name. |
| FetchDomains.Aggregation.AllowPhase | aggregation/fetch/domains.ts:64-72 | After every allow source, the allow set grows by exactly the valid fetched names. This is the awaited test, the corrected behaviour of the row under "## Findings"; as written, those lines admit every name. |
| FetchDomains.Aggregation.BlockPhase | aggregation/fetch/domains.ts:77-107 | After every blocklist source, the disposable set grows by exactly the valid fetched names outside the allow set, which stays unchanged. This is the awaited test, the corrected behaviour of the row under "## Findings"; as written, those lines admit every name. |
| FetchDomains.Aggregation.FetchDomains | aggregation/fetch/domains.ts:53-108 | The allow set is the reloaded file plus the valid allow-source names. The disposable set gains exactly the valid blocklist names outside that final allow set. Every added disposable is valid and not allow-listed. This is the awaited test, the corrected behaviour of the row under "## Findings"; as written, those lines admit every name. |
| FetchDomains.PhasesKeepListsApart | aggregation/fetch/domains.ts:64-107 | With the phases in sequence, every valid allow-source name is allowed, and every name the block phase adds is valid and not allowed. |
| FetchDomains.UnawaitedOverAdmits | aggregation/fetch/domains.ts:67 | As written, the un-awaited test admits every name the awaited test admits, and besides those exactly the names outside the exclusion set that fail validateDomain. |
| FetchDomains.UnawaitedAdmitsInvalidName | aggregation/fetch/domains.ts:67 | As written, `localhost` from an allow source is admitted although it fails validateDomain, which the awaited test would refuse. |
| FetchScript.Baselines.constructor | scripts/fetch-domains.ts:9-12 | The script starts with two empty sets and a size of 0. |
| FetchScript.Baselines.LoadAllowlist | scripts/fetch-domains.ts:62-66 | A present allow-list file replaces the allow set with the entries the comment-keeping parser finds; nothing else changes. |
| FetchScript.Baselines.LoadDisposables | scripts/fetch-domains.ts:69-74 | A present list file replaces the disposable set with the entries the comment-dropping parser finds; the size becomes their count, at least the size of the set; the allow set is unchanged. |
| FetchScript.Baselines.LoadBaselines | scripts/fetch-domains.ts:62-74 | The allow set is reloaded keeping `#` lines and the disposable set dropping them. The size is the disposable file's entry count, at least the size of the set. |
| FetchScript.SetOfSize | scripts/fetch-domains.ts:72-73 | A set built from a list has no more elements than the list has entries. |
| FetchScript.CommentLineReadTwoWays | scripts/fetch-domains.ts:62-74 | A `#` line is an allow-list name but no disposable-list name. |
| FetchScript.AllowListSingleEntry | scripts/fetch-domains.ts:64 | A one-line allow list holding a stored entry parses to that entry. |
| TldGeneration.ParseTldList | scripts/fetch-tlds.ts:84-108 | A failed response, and only that, is FetchFailed. NoTlds exactly when no line is non-empty and not `#` before trimming. Otherwise there is at most one name per line, each the trimmed, lower-cased form of a kept line. |
| TldGeneration.ParseTldListComplete | scripts/fetch-tlds.ts:93-96 | Every kept line of an accepted list yields its trimmed, lower-cased name: together with ParseTldList, the names are exactly those of the kept lines. |
| TldGeneration.ConditionHolds | scripts/fetch-tlds.ts:25 | The condition for a TLD holds for `t` exactly when both are equal once lower-cased. |
| TldGeneration.Chunks | scripts/fetch-tlds.ts:28-29 | ceil(n/20) slices, each of 1 to 20 conditions. |
| TldGeneration.ChunksFlatten | scripts/fetch-tlds.ts:28-31 | The slices, concatenated in order, are the condition list. |
| TldGeneration.ChunksFull | scripts/fetch-tlds.ts:28-29 | Every slice but the last has exactly 20 conditions. |
| TldGeneration.FlattenMembership | scripts/fetch-tlds.ts:28-31 | A condition is in the concatenated slices exactly when it is in one of the slices. |
| TldGeneration.ChunksFrom | scripts/fetch-tlds.ts:29 | From position `i`, the next slice runs to `i+20`, or to the end when that is nearer. |
| TldGeneration.GenerateIfConditions | scripts/fetch-tlds.ts:26-31 | The loop emits one `if` statement per slice of 20 conditions, in order. |
| TldGeneration.ParseAndGenerate | scripts/fetch-tlds.ts:13-31 | An error exactly when some TLD is empty or has a character outside `[A-Za-z0-9-]`; otherwise the `if` statements of the lower-cased conditions, 20 per statement. |
| TldGeneration.GeneratedIsMembership | scripts/fetch-tlds.ts:25-64 | The generated `isTldValid(t)` is true exactly when `t` equals a listed TLD, both lower-cased. |
| TldGeneration.StatementShape | scripts/fetch-tlds.ts:28-31 | ceil(n/20) statements of 1 to 20 conditions, all full but the last, holding together the whole condition list in order. |
| TldGeneration.BlankLineStopsGeneration | scripts/fetch-tlds.ts:93-96 | A line of spaces passes the untrimmed filter and becomes the empty name, which the pattern check at line 15 refuses. |

## Left out

- Network, file system and console. A fetch is a `Response` value, a file an `Option<string>`, and a written file the returned text. `mkdir`, `writeFile` and the log lines are not modelled.
- The generated TypeScript modules, `src/data/domains.ts` (aggregation/utils/add-to-list.ts:117-141, utils/add-to-list.ts:43-67) and `src/data/tlds.ts` (scripts/fetch-tlds.ts:34-65). The model keeps only the `if` statements of `isTldValid` and that function's meaning; `tldSet` and `domainSet` are parameters.
- `updateReadme` (aggregation/utils/add-to-list.ts:13-45, scripts/fetch-domains.ts:150-182): README rewriting with locale-dependent number formatting.
- `updateTldList` (scripts/fetch-tlds.ts:113-123) and the script entry points: they chain the modelled steps and exit the process.
- The racing `Promise.all` of `updateDomainList` (scripts/fetch-domains.ts:78-145). Its point is concurrency; only its baseline loading is modelled. The sequential merge is modelled after `fetchDomains` of aggregation/fetch/domains.ts.
- Concurrency inside `fetchDomains`: each phase's sources are folded one after the other. The phases themselves do run in sequence, and set union is order-independent, so the final sets are the same.
- Time stamps: `new Date().toISOString()` is the `stamp` parameter, any one-line string.
- `localeCompare` is modelled as code-point lexicographic order. Only sortedness, absence of duplicates and set equality are proved.
- `toLowerCase` is modelled on ASCII letters only, and `trim` on the ECMAScript white-space and line-terminator set.
- A string is a sequence of Unicode scalar values, not of UTF-16 code units. A character outside the Basic Multilingual Plane counts once in the model and twice in JavaScript's `length`, so the length bounds of src/index.ts:45-59, src/validation.ts:10-23 and utils/validate-domain.ts:4 differ on such characters: 33 copies of U+1F600 followed by `@domain.com` has a 66-unit local part, which the source rejects, while EmailValidation.ValidateEmail sees 33 characters and accepts the address when `com` is a known TLD.
- FetchData.SelectJson: a selected JSON value that is not an array of strings yields no names. In the source it is returned as is. When it is `undefined` or not an array, `domains.forEach` throws inside the JSON phase's `Promise.all` (aggregation/fetch/domains.ts:88-96), `fetchDomains` rejects, and the catch of the entry point (aggregation/fetch/domains.ts:111-127) skips both writers. The model carries on with no names from that source instead.
- FetchData.Fetch: JSON-mode names are taken as they come, neither trimmed nor lower-cased, as in the source. A CSV column is an integer, so fractional column numbers are not modelled.
- `aggregation/utils/validate-domain.ts` is not part of this model. Its callers are modelled with `utils/validate-domain.ts`, assumed to be the same function.
- The URL lists of `scripts/aggregate-domains.ts`, and the `aggregation/fetch/aggregate-domains.ts` imported by the aggregation code, which is not part of this model: the URL lists are parameters.
- Registry.AllowlistRoundTrip and Registry.ListRoundTrip, with the round-trip clauses of AggregationLists.Lists.AddToAllowlist, AggregationLists.Lists.AddToDisposableList and AddToList.Lists.AddToList: they require that no stored name starts with `#`. The comment-dropping parser can store `#x` from an indented line ` #x` (LineFiles.IndentedCommentLeaks), and such a name would not survive the next parse.

## Findings

| source | as written | input that shows it | evidently intended | confidence | as-written member | corrected member |
|---|---|---|---|---|---|---|
| aggregation/fetch/domains.ts:67 | `if (validateDomain(domain))` tests the Promise the async validator returns, without `await`. A Promise is truthy, so every fetched name passes. The same holds at lines 80, 91 and 102. | An allow-list source whose body is `localhost`: the name is added to the allow set although validateDomain resolves to false for it. | `if (await validateDomain(domain))`, as in aggregation/utils/add-to-list.ts:58 | not executed | FetchDomains.UnawaitedAdmitsInvalidName | FetchDomains.Aggregation.FetchDomains |
