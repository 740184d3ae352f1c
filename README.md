# Blog feed relay: a Dafny model

This project models the `/api/blog` GET handler of a personal portfolio site.
The handler fetches the blog's RSS feed and scans the feed text with four
regular expressions of the shape `<open>(.*?)<close>`. It slices the capture
lists, zips them by index into `{title, link, pubDate, description}` posts, and
cleans each description. That means one global pass of `/<[^>]*>/g` replaced by
nothing, then `substring(0, 100)`. A response that is not ok, or a zip that
reads past the end of a list, ends in the `catch` block, which returns the
status-500 reply `Failed to fetch blog posts`.

The model is pure, like the handler's transform:

- `wrappers.dfy`: `Option` and `Result`.
- `text.dfy`: line terminators as JavaScript's `.` sees them (LF, CR, U+2028,
  U+2029), substring occurrence, `Min`/`Max`.
- `scanner.dfy`: `matchAll` with a lazy, non-line-crossing capture.
  - `LazyEnd` finds where the capture stops, and `MatchAt` is one match
    attempt.
  - `Scan` is the left-to-right global scan, and `FindAll` reads out group 1.
  - The declarative description `IsScanOf` holds of the scan (`ScanIsScan`)
    and has exactly one solution (`ScanOfUnique`).
- `markup.dfy`: `StripTags` (the tag pass), `Truncate` (`substring(0, n)`),
  and `NormalizeDescription`, which is their composition with the limit 100.
- `blog_route.dfy`: the four patterns, JavaScript's `slice` as `Slice`, the
  index-by-index zip `ZipFrom`/`BuildPosts`, the handler `Handle` and the
  client-facing `Reply`.

The fetch is reduced to its `ok` flag and the body text.
`toLocaleDateString('ko-KR')` is a total function `formatDate` passed in.

The model follows `src/app/api/blog/route.ts` exactly, so these behaviours of
the handler are kept as they are:

- The handler does not append an ellipsis when it cuts a description
  (`Truncate` returns a prefix).
- The handler does not reject an unparseable date. The formatter's text is
  used.
- The handler keeps a `<` with no later `>`, and a `>` with no earlier `<`, in
  the description (`KeepsStrayBrackets`).
- The handler answers a feed with no item titles with an empty post list, not
  with an error (`HandleEmptyFeed`).

## Model

| member | source | states |
|---|---|---|
| Scanner.LazyEnd | src/app/api/blog/route.ts:16-19 | `.*?` stops at the first occurrence of the closing delimiter. It fails when a line terminator or the end of the text comes first. The result is the unique lazy end, or there is none. |
| Scanner.MatchAt | src/app/api/blog/route.ts:16-19 | A match attempt at `p` returns a match of the pattern (`IsMatch`) starting at `p`, lying inside the text. When it fails, no match starts at `p`. |
| Scanner.MatchAtExact | src/app/api/blog/route.ts:16-19 | The attempt at a position returns a given match exactly when that match is a match of the pattern (both directions). |
| Scanner.Scan | src/app/api/blog/route.ts:21-24 | The `matchAll` scan returns matches lying at or after the scan start and inside the text. `ScanOrdered`, `ScanMatches`, `ScanLeftmost`, `ScanIsScan` and `ScanOfUnique` state the rest of its behaviour. |
| Scanner.ScanOrdered | src/app/api/blog/route.ts:21-24 | The global scan's matches start at or after the scan start, end inside the text, and are increasing and non-overlapping. |
| Scanner.ScanMatches | src/app/api/blog/route.ts:21-24 | Every element the scan returns is a match of the pattern. |
| Scanner.ScanLeftmost | src/app/api/blog/route.ts:21-24 | The scan skips nothing. Each match is the leftmost one after the previous match ends, and no match starts after the last one. |
| Scanner.ScanIsScan | src/app/api/blog/route.ts:21-24 | The scan meets the whole declarative description `IsScanOf`. |
| Scanner.ScanOfUnique | src/app/api/blog/route.ts:21-24 | Two match sequences that both meet `IsScanOf` from the same start are equal. |
| Scanner.FindAllIsLeftmostScan | src/app/api/blog/route.ts:21-24 | `FindAll` is the capture list of any match sequence that meets `IsScanOf` from position 0. |
| Scanner.CaptureIsClean | src/app/api/blog/route.ts:16-19 | A match's capture has no line terminator and does not contain the closing delimiter. |
| Scanner.FindAll | src/app/api/blog/route.ts:16-24 | Every capture `matchAll` yields has no line terminator and does not contain the closing delimiter. `FindAllIsLeftmostScan` ties it to the declarative leftmost scan. |
| Scanner.CapturesClean | src/app/api/blog/route.ts:16-19 | The captures of any sequence of pattern matches are all clean in the sense of `CaptureIsClean`. |
| Markup.StripTags | src/app/api/blog/route.ts:30 | The tag pass never lengthens its input. `StripTagsIsTagFree`, `StripTagsIdempotent`, `StripTagsKeepsPlainText`, `StripTagsDeletes` and `StripTagsDropsTag` state what it removes and keeps. |
| Markup.StripTagsKeepsWithoutClose | src/app/api/blog/route.ts:30 | A string with no `>` passes the tag pass unchanged. |
| Markup.StripTagsIsTagFree | src/app/api/blog/route.ts:30 | In the output of the tag pass, no `<` is followed anywhere later by a `>`. |
| Markup.StripTagsFixesTagFree | src/app/api/blog/route.ts:30 | A tag-free string is a fixed point of the tag pass. |
| Markup.StripTagsIdempotent | src/app/api/blog/route.ts:30 | Stripping twice equals stripping once. |
| Markup.StripTagsKeepsPlainText | src/app/api/blog/route.ts:30 | A string with no `<` is returned unchanged. |
| Markup.StripTagsDeletes | src/app/api/blog/route.ts:30 | The pass only deletes characters: the output is a subsequence of the input, the kept characters in their original order. |
| Markup.StripTagsShrinks | src/app/api/blog/route.ts:30 | The output's multiset of characters is within the input's. |
| Markup.StripTagsDropsTag | src/app/api/blog/route.ts:30 | A leading `<`...`>` span with no `>` inside is removed as one tag. |
| Markup.StripTagsKeepsPlainPrefix | src/app/api/blog/route.ts:30 | A leading run with no `<` is kept as it is. |
| Markup.Truncate | src/app/api/blog/route.ts:30 | `substring(0, n)` yields a prefix of its input, of length `n` or the whole input when that is shorter. Nothing is appended. |
| Markup.NormalizeDescription | src/app/api/blog/route.ts:30 | A description is at most 100 characters and a prefix of the tag-stripped text. |
| Markup.NormalizeDescriptionSpec | src/app/api/blog/route.ts:30 | A description is at most 100 characters and a prefix of the stripped text. It is tag-free and no longer than the raw text. It is the whole stripped text when that fits, and exactly 100 characters otherwise. |
| Markup.NormalizeDescriptionIdempotent | src/app/api/blog/route.ts:30 | Normalising a normalised description changes nothing. |
| Markup.StripsSimpleFragment | src/app/api/blog/route.ts:30 | `<p>Hello <b>World</b></p>` normalises to `Hello World`, with no marker added. |
| Markup.KeepsStrayBrackets | src/app/api/blog/route.ts:30 | `1 > 0` and `0 < 1` pass through unchanged. Stray brackets are not tags. |
| BlogRoute.Slice | src/app/api/blog/route.ts:21-24 | `slice(lo, hi)` has length max(0, min(hi, len) - lo), and entry `i` is input entry `lo + i`. |
| BlogRoute.MakePost | src/app/api/blog/route.ts:26-31 | The post at index `i` takes title `i` and link `i` as captured, and its description is at most 100 characters and a prefix of stripped description `i`. |
| BlogRoute.ZipFrom | src/app/api/blog/route.ts:26-31 | The zip from index `i` gives one post per remaining title, or an error naming a remaining index. `ZipFromSpec` states exactly when and which. |
| BlogRoute.ZipFromSpec | src/app/api/blog/route.ts:26-31 | The zip from index `i` succeeds exactly when every partner list reaches the end of the titles. It then holds post `j` at `j - i`. Otherwise it fails at the shortest partner's length, naming the first field (link, date, description) missing there. |
| BlogRoute.BuildPosts | src/app/api/blog/route.ts:26-31 | `titles.map(...)` gives one post per title, or the missing-field error at an index below the title count. |
| BlogRoute.BuildPostsSpec | src/app/api/blog/route.ts:26-31 | The whole zip succeeds exactly when links, dates and descriptions each are at least as many as titles. Post `j` is built from entry `j` of each list. A failure names the first missing index and field. |
| BlogRoute.Handle | src/app/api/blog/route.ts:9-10 | A response that is not ok yields `Failure(FetchFailed)` and no posts. |
| BlogRoute.HandleSucceedsIff | src/app/api/blog/route.ts:21-31 | With an ok response the handler succeeds exactly when each sliced partner list is at least as long as the sliced title list. The post count is then min(5, max(0, titles - 1)). |
| BlogRoute.HandleEmptyFeed | src/app/api/blog/route.ts:21-31 | With at most one title match (the channel's), the reply is an empty post list. |
| BlogRoute.HandlePostsInFeedOrder | src/app/api/blog/route.ts:21-31 | Post `i` has title match `i + 1` and link match `i + 1`, so the channel's own title is never a post. It has the formatted date of date match `i` and the normalised description match `i`. |
| BlogRoute.HandleFailsOnMisalignment | src/app/api/blog/route.ts:26-36 | If the sliced link, date or description list is shorter than the title list, the result is the error, never a partial list. The error names an index below the post count. |
| BlogRoute.HandlePostFieldsClean | src/app/api/blog/route.ts:16-31 | In every post, title and link hold no line terminator and no closing delimiter. The description is at most 100 characters, tag-free, and a prefix of a stripped description capture. |
| BlogRoute.ToReply | src/app/api/blog/route.ts:33-36 | A success reaches the client as its posts; every failure becomes status 500 with `Failed to fetch blog posts`. |
| BlogRoute.FailuresLookAlike | src/app/api/blog/route.ts:34-36 | Every failure, whatever its cause, reaches the client as the same status-500 reply. |
| BlogRoute.NotOkGivesErrorReply | src/app/api/blog/route.ts:34-36 | A response that is not ok reaches the client as the status-500 error reply. |

## Left out

- The `fetch` call, its `cache: 'no-store'` option, `response.text()` and `NextResponse.json`. These are network and framework I/O. The response becomes an `ok` flag plus body text, and the JSON envelope becomes the `Reply` datatype.
- A `fetch` that rejects, or a `response.text()` that fails, has no input in `Handle`. Both land in the same `catch` and so give the same reply as `FetchFailed` (`FailuresLookAlike`).
- `new Date(...).toLocaleDateString('ko-KR')`. This is host date parsing and locale formatting from libraries that are not part of this model. It is the total parameter `formatDate`.
- `console.error` logging has no effect on the result.
- UTF-16 code units. Strings are sequences of Unicode characters, so `substring` and the regular expressions count characters, not UTF-16 units.
- `src/app/page.tsx` is presentation markup and a dark-mode toggle over `localStorage`. It does not call this handler.
- The client-side freshness cache, retries and fallback lists belong to other versions of the site. None of them is in this handler.
