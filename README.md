# Bulk email validation: parsing, upload form, report and client contract

This project is a Dafny model of the part of the email-cleaning web client that
runs a bulk validation job in the browser. It covers the following:

- **The upload form** (`upload.dfy`, module `Upload`):
  - Parsing an uploaded file's text into a list of addresses: split on runs of
    CR, LF and comma, trim each piece, drop the blank ones.
  - The MIME-type gate for the selected file and the size-based credit estimate.
  - The form's state as a class, `UploadForm`, whose methods are its event
    handlers and the browser callbacks: file change, submit, the read's
    `onload`, the progress interval's tick, and the validation call's success
    or failure.
- **The report of a finished job** (`report.dfy`, module `Report`):
  - The five category cards and the icon lookup.
  - The bucket of the selected category, narrowed by a case-insensitive
    substring search.
  - Ten rows a page, with a ceiling page count, and the Previous / Next /
    page-link handlers.
  - The export of a bucket as newline-joined text under `<category>-emails.txt`.
  - The view state as a class, `ValidationReport`.
- **The deterministic parts of the API client** (`api.dfy`, module `Api`):
  - The development fixture, which puts the addresses into buckets by index
    modulus.
  - The `error.message || fallback` rule of every call.
  - The `{ page, ...filters }` query of the history call and its fixture.
  - How each call settles given the server's reply.
- **Shared pieces**:
  - `types.dfy` holds the records `ValidationResult` and `ValidationCategory`.
  - `seqs.dfy` holds `Array.prototype.filter` with its index argument, `join`,
    one-character `split` and `slice` with JavaScript's negative-index rule.
  - `text.dfy` holds `trim`, ASCII `toLowerCase`, `includes` and the decimal
    form of an integer.
  - `wrappers.dfy` holds `Option` and `Result`.

The model follows the code as written. Four behaviours of the code are easy to
assume away:

- Selecting a category or typing a search keeps the page number. A stale page
  past the end shows no row (`Report.StalePageAfterCategoryChange`).
- The page count is 0 when nothing matches. Next then moves to page 0
  (`Report.NextWithNoPages`).
- The fixture's buckets overlap (`Api.MockBucketsOverlap`).
- A file with no address is still sent for validation, as the empty list
  (`Upload.BlankUploadIsSent`).

A fifth behaviour: a failed validation never clears its progress interval, so
after a successful retry the leaked interval pulls the progress from 100 back
to 90 (`Upload.RetryAfterFailure`).

## Model

| member | source | states |
|---|---|---|
| Upload.SplitRunsPieces | src/components/validation/UploadForm.tsx:56 | no piece of the split on runs of CR, LF and comma contains any of the three |
| Upload.FirstDelimiterFound | src/components/validation/UploadForm.tsx:56 | where the split cuts, there is a delimiter |
| Upload.FirstDelimiterNoneBefore | src/components/validation/UploadForm.tsx:56 | the split cuts at the first delimiter: none comes before it |
| Upload.SkipDelimitersSpec | src/components/validation/UploadForm.tsx:56 | a whole run of delimiters is consumed as one separator: what follows starts with a non-delimiter |
| Upload.ParseAddressesSpec | src/components/validation/UploadForm.tsx:55-58 | the parsed list is an order-preserving subsequence of the trimmed pieces, and every non-empty trimmed piece occurs in it as many times as among the pieces, with no deduplication; "" never occurs |
| Upload.ParsePiecesSpec | src/components/validation/UploadForm.tsx:57-58 | trim-then-drop-blank keeps the non-empty trimmed pieces in order, each with its full multiplicity, and drops every "" |
| Upload.ParsedAddressesAreClean | src/components/validation/UploadForm.tsx:55-58 | every parsed address is non-empty, contains no CR, LF or comma, and equals its own trim |
| Upload.BlankContentParsesEmpty | src/components/validation/UploadForm.tsx:55-58 | content made only of whitespace and delimiters (including the empty file) parses to the empty list |
| Upload.ParseOfPieces | src/components/validation/UploadForm.tsx:57-58 | pieces that trim to non-empty strings parse to exactly those strings |
| Upload.SplitRunsJoin | src/components/validation/UploadForm.tsx:56 | non-empty delimiter-free strings joined by newlines split back into the same list |
| Upload.SplitRunsInterleave | src/components/validation/UploadForm.tsx:56 | delimiter-free pieces separated by any non-empty runs of CR, LF and comma (CRLF, ",\n", ",,") split back into exactly those pieces, provided every inner piece is non-empty; the first or last piece may be "" |
| Upload.SplitRunsRecompose | src/components/validation/UploadForm.tsx:56 | the split loses nothing but the delimiter runs: putting the runs back between the pieces gives the input, each run is a non-empty string of delimiters, and no inner piece is empty |
| Upload.ParseInterleavedAddresses | src/components/validation/UploadForm.tsx:55-58 | clean addresses separated by any delimiter runs parse back to the same list |
| Upload.ParseJoinedByRun | src/components/validation/UploadForm.tsx:55-58 | clean addresses joined by one fixed delimiter run parse back to the same list |
| Upload.ParseCrlfLines | src/components/validation/UploadForm.tsx:55-58 | clean addresses on CRLF lines parse back to the same list, and an empty file to [] |
| Upload.ParseJoinedAddresses | src/components/validation/UploadForm.tsx:55-58 | clean addresses joined by newlines parse back to the same list |
| Upload.ParseCommaSpaceNewline | src/components/validation/UploadForm.tsx:55-58 | "a, b\nc" with clean a, b, c parses to [a, b, c]: the space after the comma is trimmed away |
| Upload.TickBounds | src/components/validation/UploadForm.tsx:62 | a tick from at most 90 never lowers progress, never passes 90, and adds 10 unless it stops at 90 |
| Upload.ProgressAfterTicksClosed | src/components/validation/UploadForm.tsx:61-63 | k ticks from p <= 90 give min(p + 10k, 90) |
| Upload.ProgressFromZero | src/components/validation/UploadForm.tsx:61-63 | k ticks from 0 give min(10k, 90) |
| Upload.ProgressMonotone | src/components/validation/UploadForm.tsx:61-63 | progress never decreases from one tick to the next and stays at most 90 |
| Upload.ProgressAfterTicksAdd | src/components/validation/UploadForm.tsx:61-63 | a ticks followed by b ticks equal a + b ticks |
| Upload.TickKeepsStep | src/components/validation/UploadForm.tsx:62 | ticking keeps progress a multiple of 10 within 0..90 |
| Upload.TickAfterCompletion | src/components/validation/UploadForm.tsx:62 | a tick delivered at 100 sets progress to 90 |
| Upload.CreditEstimateSpec | src/components/validation/UploadForm.tsx:143-144 | the estimate is the number of whole 50-byte blocks in the file and grows with the file size |
| Upload.UploadForm.constructor | src/components/validation/UploadForm.tsx:19-22 | the form starts with no file, progress 0, no result and the processing flag down |
| Upload.UploadForm.HandleFileChange | src/components/validation/UploadForm.tsx:25-43 | a selection is accepted exactly when a file is present and its type is text/csv or the xlsx MIME type; an accepted file is stored, progress is reset to 0 and the result cleared; a rejected selection changes nothing; the invariant Valid(), which every method keeps, says any stored file has one of the two accepted types |
| Upload.UploadForm.HandleSubmit | src/components/validation/UploadForm.tsx:45-92 | without a file nothing happens; otherwise one file read starts; the processing flag is lowered again before the handler returns |
| Upload.UploadForm.OnLoad | src/components/validation/UploadForm.tsx:53-66 | the addresses sent are exactly the parse of the content; one interval starts and one validation call is pending |
| Upload.UploadForm.Tick | src/components/validation/UploadForm.tsx:61-63 | progress becomes min(progress + 10, 90) and nothing else changes |
| Upload.UploadForm.TickTimes | src/components/validation/UploadForm.tsx:61-63 | n firings of the interval leave progress at the n-fold tick of its old value |
| Upload.UploadForm.OnValidated | src/components/validation/UploadForm.tsx:66-69 | success clears one interval, sets progress to exactly 100 and stores the result |
| Upload.UploadForm.OnValidationFailed | src/components/validation/UploadForm.tsx:74-80 | failure leaves progress and result unchanged and does not clear the interval |
| Upload.SuccessfulRun | src/components/validation/UploadForm.tsx:25-73 | accept, submit, load, k ticks, success: the list sent is the parse, progress before success is min(10k, 90), then 100 with the result stored |
| Upload.FailedRun | src/components/validation/UploadForm.tsx:25-80 | with the call failing, no result is stored, the interval keeps running, and progress stays min(10k, 90) <= 90 however many ticks follow |
| Upload.RetryAfterFailure | src/components/validation/UploadForm.tsx:61-80 | after a failed run and a successful retry, progress is 100 with the result stored, and the leaked interval's next tick sets it to 90 |
| Upload.BlankUploadIsSent | src/components/validation/UploadForm.tsx:55-66 | a file with no address is still sent, as the empty list |
| Upload.SubmitWithoutFile | src/components/validation/UploadForm.tsx:25-47 | when no acceptable file was selected, submit starts no read |
| Text.TrimStartFirst | src/components/validation/UploadForm.tsx:57 | what trimming the start leaves does not begin with whitespace |
| Text.TrimEndLast | src/components/validation/UploadForm.tsx:57 | what trimming the end leaves does not finish with whitespace |
| Text.TrimEnds | src/components/validation/UploadForm.tsx:57 | a non-empty trimmed string neither starts nor ends with whitespace |
| Text.TrimSlice | src/components/validation/UploadForm.tsx:57 | the trimmed string is a contiguous slice of the original |
| Text.TrimCutsWhitespace | src/components/validation/UploadForm.tsx:57 | what trim removes on either side of that slice is whitespace |
| Text.TrimIdempotent | src/components/validation/UploadForm.tsx:57 | trimming twice is trimming once |
| Text.TrimAllWhitespace | src/components/validation/UploadForm.tsx:57-58 | a whitespace-only string trims to "" |
| Text.Contains | src/components/validation/ValidationReport.tsx:108 | includes is true exactly when the needle occurs at some position, and always for the empty needle |
| Text.LowerIdempotent | src/components/validation/ValidationReport.tsx:108 | lower-casing twice is lower-casing once |
| Text.DecimalRoundTrip | src/lib/api.ts:147 | the decimal form of the page number reads back as that number |
| Seqs.FilterIsSubsequence | src/components/validation/ValidationReport.tsx:107-109 | filter only deletes elements: what it keeps stays in input order |
| Seqs.FilterMembers | src/components/validation/ValidationReport.tsx:107-109 | an element is kept exactly when it sits at an index where the callback accepts it |
| Seqs.FilterMultiset | src/components/validation/ValidationReport.tsx:107-109 | with a callback that ignores the index, filter keeps every occurrence of each accepted element and none of a rejected one |
| Seqs.FilterKeepsAll | src/components/validation/ValidationReport.tsx:107-109 | when the callback accepts every element, filter returns its input |
| Seqs.FilterDropsAll | src/components/validation/ValidationReport.tsx:107-109 | when the callback rejects every element, filter returns [] |
| Seqs.JoinSplit | src/components/validation/ValidationReport.tsx:118 | joining the pieces of a split with the separator gives back the original text |
| Seqs.SplitJoin | src/components/validation/ValidationReport.tsx:118 | splitting a join of separator-free parts gives back the parts |
| Seqs.Slice | src/components/validation/ValidationReport.tsx:111-114 | slice never returns more than the input, and for in-range bounds it is the ordinary subsequence |
| Types.ParseCategoryType | src/lib/types.ts:42 | a string parses to a category type only when it is that type's name |
| Types.CategoryNamesRoundTrip | src/lib/types.ts:42 | each of the five type names parses back to its type |
| Report.IconRoundTrip | src/components/validation/ValidationReport.tsx:71-86 | each icon's name selects that icon |
| Report.IconLookup | src/components/validation/ValidationReport.tsx:71-86 | a name selects a non-Mail icon only when it is that icon's name, and every unknown name gives Mail |
| Report.CategoriesDistinct | src/components/validation/ValidationReport.tsx:24-60 | the five cards have five different types and five different icons |
| Report.CardIndex | src/components/validation/ValidationReport.tsx:24-60 | every category type has a card |
| Report.FindCategory | src/components/validation/ValidationReport.tsx:163 | the card found for a name has that type name |
| Report.FindIn | src/components/validation/ValidationReport.tsx:163 | find returns a card with the name when one exists, and None only when no card has it |
| Report.FindCategoryExactly | src/components/validation/ValidationReport.tsx:163 | the title lookup finds a card exactly for the five type names |
| Report.CategoryEmailsLookup | src/components/validation/ValidationReport.tsx:88-103 | getCategoryEmails returns the field of the named type, and [] for any other string |
| Report.CardBucket | src/components/validation/ValidationReport.tsx:132-133 | each card counts the bucket of its own type |
| Report.FilterEmailsSpec | src/components/validation/ValidationReport.tsx:107-109 | the filtered list is an order-preserving subsequence of the bucket; an address whose lower-cased form contains the lower-cased search occurs in it as often as in the bucket, and any other address not at all |
| Report.EmptySearchKeepsAll | src/components/validation/ValidationReport.tsx:107-109 | an empty search keeps the whole bucket |
| Report.NoMatchLeavesNothing | src/components/validation/ValidationReport.tsx:107-109 | a search that matches no address leaves the empty list |
| Report.MatchesIgnoresCase | src/components/validation/ValidationReport.tsx:108 | matching ignores ASCII letter case on either side |
| Report.TotalPagesIsCeiling | src/components/validation/ValidationReport.tsx:105-110 | the page count is the least number of ten-row pages holding all rows, and 0 exactly when there are none |
| Report.PageAtMostTen | src/components/validation/ValidationReport.tsx:111-114 | no page shows more than ten rows |
| Report.PageInRange | src/components/validation/ValidationReport.tsx:111-114 | page p in 1..totalPages shows rows (p-1)*10 up to min(p*10, n), and at least one |
| Report.PageOutOfRange | src/components/validation/ValidationReport.tsx:111-114 | page 0 and every page past the last show no row |
| Report.RowOnPage | src/components/validation/ValidationReport.tsx:111-114 | row i is row i % 10 of page i / 10 + 1 |
| Report.PagesUpToPrefix | src/components/validation/ValidationReport.tsx:110-114 | pages 1..k together are the first min(10k, n) rows |
| Report.AllPagesShowFiltered | src/components/validation/ValidationReport.tsx:110-114 | pages 1..totalPages together are the filtered list, in order, each row once |
| Report.CurrentRowsAreSlice | src/components/validation/ValidationReport.tsx:105-114 | in a view whose page number is not negative, the rows shown are filtered[(p-1)*10 .. p*10] cut at the end, and none on page 0 |
| Report.PreviousClamps | src/components/validation/ValidationReport.tsx:211 | Previous gives max(1, p - 1): never below 1 |
| Report.NextClamps | src/components/validation/ValidationReport.tsx:227 | Next gives min(totalPages, p + 1): never above totalPages, and 0 when there are no pages |
| Report.PreviousNextInverse | src/components/validation/ValidationReport.tsx:211-227 | within 1..totalPages both buttons stay in range and undo each other |
| Report.FileNameRoundTrip | src/components/validation/ValidationReport.tsx:122 | the download name gives back the category it was made from |
| Report.EmptyBucketExportsEmpty | src/components/validation/ValidationReport.tsx:117-118 | an empty bucket exports the empty text |
| Report.ExportSplitsBack | src/components/validation/ValidationReport.tsx:116-118 | splitting the export on '\n' gives back a non-empty bucket whose addresses contain no newline |
| Report.ExportReuploads | src/components/validation/ValidationReport.tsx:116-118 | uploading an exported bucket of clean addresses parses back to the same bucket |
| Report.ValidationReport.constructor | src/components/validation/ValidationReport.tsx:67-69 | the view starts on category 'valid', page 1, empty search |
| Report.ValidationReport.SelectCategory | src/components/validation/ValidationReport.tsx:141 | a card click changes only the category; the page number is kept |
| Report.ValidationReport.SetSearch | src/components/validation/ValidationReport.tsx:178 | typing changes only the search text; the page number is kept |
| Report.ValidationReport.OnPrevious | src/components/validation/ValidationReport.tsx:211 | Previous sets the page to max(1, p - 1) and changes nothing else |
| Report.ValidationReport.OnPageLink | src/components/validation/ValidationReport.tsx:215-218 | the link of index i sets the page to i + 1 |
| Report.ValidationReport.OnNext | src/components/validation/ValidationReport.tsx:227 | Next sets the page to min(totalPages, p + 1) and changes nothing else |
| Report.ValidationReport.Download | src/components/validation/ValidationReport.tsx:116-122 | the download is the selected bucket joined by newlines, unfiltered by the search, named `<category>-emails.txt` |
| Report.FirstView | src/components/validation/ValidationReport.tsx:105-114 | a fresh report shows the first ten valid addresses and ceil(valid / 10) pages |
| Report.StalePageAfterCategoryChange | src/components/validation/ValidationReport.tsx:141 | after Next to page 2, selecting a category with ten or fewer addresses stays on page 2 and shows no row |
| Report.NextWithNoPages | src/components/validation/ValidationReport.tsx:227 | with nothing matching, Next moves from page 1 to page 0 and Previous brings it back to 1 |
| Api.IndexMultiplesClosed | src/lib/api.ts:11-15 | filtering by index % k keeps ceil(n / k) elements, the j-th being the element at index j*k |
| Api.IndexMultiplesMembers | src/lib/api.ts:11-15 | an address is in a bucket exactly when it sits at some index divisible by the bucket's modulus |
| Api.MockResultSpec | src/lib/api.ts:6-18 | totalEmails = creditsUsed = n, status completed, fileName upload.csv; bucket sizes ceil(n/2), ceil(n/3), ceil(n/5), ceil(n/7), ceil(n/11); valid is the even positions; every bucket is an order-preserving subsequence |
| Api.MockBucketsOverlap | src/lib/api.ts:11-15 | for non-empty input the first address is in all five buckets, so the bucket sizes add up to more than totalEmails |
| Api.SingleMock | src/lib/api.ts:56-59 | the single-address fixture has totals 1 and the address in every bucket |
| Api.EmptyMock | src/lib/api.ts:6-18 | the fixture of no address has zero totals and five empty buckets |
| Api.ErrorMessageSpec | src/lib/api.ts:40-43 | the error carries the server's message exactly when it is a non-empty string, otherwise the call's fallback, so it is never empty |
| Api.FallbacksDistinct | src/lib/api.ts:42-159 | the fallbacks are 'Validation failed' for both validation calls, and 'Purchase failed', 'Failed to fetch credits' and 'Failed to fetch history' otherwise, all different |
| Api.PutLookup | src/lib/api.ts:146-149 | setting a key gives it the new value, leaves every other key alone, keeps the first key first and adds an entry only for a new key |
| Api.PutDistinct | src/lib/api.ts:146-149 | setting a key keeps keys distinct |
| Api.AssignSpec | src/lib/api.ts:146-149 | after spreading src into obj a key has src's value when src has it and obj's otherwise; the first key stays first |
| Api.HistoryQuerySpec | src/lib/api.ts:131-149 | the query starts with 'page'; its value is the page number, "1" when none is passed, unless the filters carry 'page', which then wins; every other key is the filters' |
| Api.HistoryQueryPageReadsBack | src/lib/api.ts:131-147 | without a 'page' filter the server reads back the page number it was given, and 1 by default |
| Api.MockHistorySpec | src/lib/api.ts:139-143 | the history fixture has exactly ten single-address results, each with its own id and instant, total 100, pages 10 |
| Api.SettleSpec | src/lib/api.ts:40-49 | a call succeeds exactly on an ok reply, with its body; a reply that is not ok throws an Error with a non-empty message, or a TypeError exactly when its body is null; a rejection is rethrown unchanged |
| Api.DevelopmentNeverFails | src/lib/api.ts:23-29 | in development validation returns the fixture of its addresses, the single call the fixture of [email], the balance 1000 and the history the history fixture without sending a request, whatever the network |
| Api.HistoryCallSpec | src/lib/api.ts:131-162 | outside development, and only there, the history call sends a query that starts with 'page' and, without a 'page' filter, reads back as the page asked for or 1; it succeeds exactly on an ok reply |
| Api.CeilStep | src/lib/api.ts:11-15 | adding index n raises ceil(n / k) by one exactly when k divides n |

## Left out

- Browser and network I/O is not modelled: FileReader, fetch, the token read from
  localStorage, the Blob / object URL / anchor download, and the toasts. The
  file's text and each call's reply are parameters.
- The two random or time-based values are parameters of the fixture: the
  `Math.random()` id and `new Date()`, the latter as an integer instant. The
  history fixture calls the fixture builder once per element, so it takes one
  id and one instant per index (`idOf`, `dateOf`).
- Timers are modelled as events: the 500 ms interval is the `Tick` method and
  the development delays (2000 ms, 1000 ms) are not modelled. The order of
  events is whatever the caller of the methods chooses.
- The `isProcessing` flag: the `finally` block lowers it synchronously after the
  read has been started and before `onload` runs. The model therefore raises and
  lowers it inside `HandleSubmit`, and the flag is always down between events.
  The interleaving of the batched state updates with the asynchronous `onload`
  is not modelled. One consequence follows from the code: the progress bar,
  which renders only while the flag is up, is never shown during a validation.
- `file.size / 50` is modelled as integer division, which is what `Math.floor`
  of a non-negative ratio gives. The per-card percentage
  `(count / totalEmails * 100).toFixed(1)` is floating point and is not
  modelled.
- `Text.Lower` lower-cases ASCII letters only, because Unicode case mapping is
  not modelled.
- `Text.Trim` removes the full set of ECMAScript WhiteSpace and LineTerminator
  code points, which is what `trim` does. Strings are sequences of characters;
  UTF-16 surrogate pairs are not modelled.
- Api.HistoryQuery: lists the object's keys in creation order. JavaScript
  enumerates array-index keys (such as "0") first in numeric order, so with
  such a filter key the order of the parameters differs from the model. Which
  value each key has is not affected.
- Api.HistoryQuery: takes the page as an integer. A fractional or NaN page,
  whose `toString` is not a decimal integer, is not modelled.
- Api.FailureMessage: takes the `message` field as a string or absent. A
  non-string truthy message (converted to a string by `Error`) is not
  modelled. A body that is not JSON is covered by `Rejected`. A `null` body,
  which throws a TypeError when its `message` is read, is the reply
  `NotOkNullBody`; the engine's text of that TypeError is not modelled.
- Api.DevelopmentNeverFails: `NODE_ENV` is a boolean parameter.
- The `console.error` logging in each call's `catch` block (src/lib/api.ts:47,
  79, 100, 126, 164) is output only and is not modelled; the error is rethrown
  unchanged, which `Settle` captures.
- Once a result is stored, the component renders the report in place of the
  form (src/components/validation/UploadForm.tsx:94-96), so no further file
  change or submit can reach it. `UploadForm` does not forbid those events
  after a result; its contracts hold either way.
- The page-link buttons' `isActive` highlighting and the `disabled` props of
  Previous / Next are presentation and are not modelled. Clicks go to the
  handlers, which clamp the page themselves.
- The rendered rows and the card titles are not modelled beyond the card
  lookup (`Report.FindCategory`) and the current page (`CurrentEmails`).
- `purchaseCredits` and `getUserCredits` are modelled only in how they settle
  (`Api.PurchaseCreditsCall`, `Api.GetUserCreditsCall`). Their request bodies
  are I/O.
