# Blog pagination, listing arithmetic and slugs

This project models the three pieces of plain logic in a Next.js blog that
reads its posts from a Sanity content studio.

- **The pager** (`BlogPagination`). For a current page and a page count it
  draws nothing when there is at most one page. Otherwise it draws a row
  of page links, with a Previous link before it when the current page is
  after page 1 and a Next link after it when the current page is before
  the last page. The row holds a window of at most five pages, plus page
  1 and the last page when they lie outside the window, with `...` where
  pages are skipped. The current page is highlighted. Page 1 links to the bare base path and every other page
  links to `basePath?page=n`.
- **The blog listing** (`app/blog/page.tsx`). It reads the `page` query
  parameter, with `parseInt(pageParam || '1', 10)`. It derives the offsets of
  the twelve posts it asks for, computes the page count as
  `ceil(totalPosts / 12)`, and decides whether the featured section, the
  "Latest Posts" heading, the empty state and the pager are shown.
- **Slug generation** (the `slugify` option of the post and category
  schemas). It lower-cases the title, deletes apostrophes, turns every
  maximal run of characters outside `[a-z0-9]` into one hyphen, and trims
  hyphens at both ends.

The Dafny modules follow that split:

- `Wrappers` defines `Option`.
- `Decimal` covers JavaScript's decimal text of an integer (the
  `${page}` template) and `parseInt(s, 10)`.
- `Pagination` is the pager component.
- `BlogListing` is the listing page.
- `Slug` is the `slugify` lambda.
- `Schema` holds the post and category slug fields, which share one
  definition.

The pager row is modelled as a sequence of `Token`s. Each token is either
`PageLink(page, active)` or `Ellipsis`, and the href of a link is
`PageHref` of its page. The proofs go through a compositional description
of the row. `WellFormed` says that neighbouring links are consecutive
pages and that an ellipsis stands exactly where pages are skipped. `Join` glues two rows and inserts an ellipsis at a gap. The
row `Tokens` computes is shown to be page 1, joined to the window, joined to
the last page.

The page parameter goes through `parseInt` unchanged. `parseInt` yields
`NaN` for text without digits, reads `"-2"` as -2 and `"2.5"` and `"2abc"`
as 2, and only a missing or empty parameter becomes page 1.
`RequestedPage` returns `None` for `NaN` and the parsed integer otherwise.
Every operation downstream takes any integer page, in range or not.

Following a pager link is modelled by `BlogListing.PageParamOf`. It stands
in for the framework reading the query string of an href the pager wrote:
the text after `basePath?page=` is the `page` parameter, and the bare base
path carries none. It does no URL decoding and does not look at other
parameters or at a repeated `page` key. The pager never writes any of
those. The round-trip lemmas about links (`PageHrefRoundTrip`,
`PreviousAndNext`, `TokenLinksInRange`) are stated through it.

## Model

| member | source | states |
|---|---|---|
| Decimal.IntToString | packages/web/components/blog/BlogPagination.tsx:24 | the text of a page number in an href is non-empty, starts with `-` exactly for negative numbers, and is all digits otherwise |
| Decimal.NatToStringRoundTrip | packages/web/components/blog/BlogPagination.tsx:24 | the digits written for a natural number read back as that number |
| Decimal.SkipSpace | packages/web/app/blog/page.tsx:30 | `parseInt` skips exactly the leading white space and line terminators: what is dropped is all white space, and what remains does not start with any |
| Decimal.Unsigned | packages/web/app/blog/page.tsx:30 | one leading `-` or `+` is dropped and nothing else is |
| Decimal.ParseInt | packages/web/app/blog/page.tsx:30 | `parseInt(s, 10)` is `NaN` exactly when no digit follows the leading white space and optional sign |
| Decimal.ParseIntRoundTrip | packages/web/app/blog/page.tsx:30 | `parseInt` reads back every integer, negative ones included, from the decimal text written for it |
| Decimal.ParseIntIgnoresTail | packages/web/app/blog/page.tsx:30 | digits followed by text that does not start with a digit parse as the digits alone, so `?page=2abc` opens page 2 |
| Decimal.ParseIntDigitFirst | packages/web/app/blog/page.tsx:30 | text that starts with a digit parses as the value of its leading digits |
| Decimal.ExampleParseIntTail | packages/web/app/blog/page.tsx:30 | `parseInt("2abc", 10)` is 2 |
| Decimal.ExampleParseIntNaN | packages/web/app/blog/page.tsx:30 | `parseInt("abc", 10)` and `parseInt("", 10)` are `NaN` |
| Pagination.Render | packages/web/components/blog/BlogPagination.tsx:16-18 | nothing is drawn exactly when there is at most one page |
| Pagination.PageHref | packages/web/components/blog/BlogPagination.tsx:20-25 | only page 1 links to the bare base path; any other page links to `basePath?page=` followed by text that `parseInt` reads back as that page |
| Pagination.PageHrefInjective | packages/web/components/blog/BlogPagination.tsx:20-25 | two different pages never get the same href |
| Pagination.ComputeWindow | packages/web/components/blog/BlogPagination.tsx:29-36 | for any current page the window lies within `1..total`, spans `min(total, 5)` pages, starts at the current page minus two clamped to `1..max(1, total-4)`, and contains the current page when that page is in range |
| Pagination.PageRun | packages/web/components/blog/BlogPagination.tsx:61-72 | the window's links are the pages `first..last` in order, each highlighted exactly when it is the current page |
| Pagination.Tokens | packages/web/components/blog/BlogPagination.tsx:27-95 | the page row is non-empty and holds at most nine tokens |
| Pagination.TokensAsJoins | packages/web/components/blog/BlogPagination.tsx:38-92 | the row drawn piece by piece equals the window glued to page 1 on the left and to the last page on the right, an ellipsis inserted at each gap |
| Pagination.TokensShape | packages/web/components/blog/BlogPagination.tsx:38-92 | the row starts and ends with a link, neighbouring links are consecutive pages, an ellipsis stands exactly between two links that skip pages, and page numbers strictly increase |
| Pagination.TokensPages | packages/web/components/blog/BlogPagination.tsx:38-92 | the row lists exactly page 1, the last page and the pages of the window |
| Pagination.WellFormedOrdered | packages/web/components/blog/BlogPagination.tsx:38-92 | in a well-formed row the page numbers strictly increase, so none repeats |
| Pagination.WellFormedNoAdjacentEllipses | packages/web/components/blog/BlogPagination.tsx:38-92 | in a well-formed row no two ellipses are neighbours |
| Pagination.RowStart | packages/web/components/blog/BlogPagination.tsx:38-59 | the row starts with page 1, followed by an ellipsis exactly when the window starts after page 2 |
| Pagination.RowEnd | packages/web/components/blog/BlogPagination.tsx:74-92 | the row ends with the last page, preceded by an ellipsis exactly when the window ends before the page before last |
| Pagination.EllipsesNearEnds | packages/web/components/blog/BlogPagination.tsx:49-82 | an ellipsis can only be the second token or the second to last |
| Pagination.ActiveLink | packages/web/components/blog/BlogPagination.tsx:39-92 | a link is highlighted exactly when it is the current page, at most one link is highlighted, and exactly one is when the current page is in range |
| Pagination.ExampleFirstOfTen | packages/web/components/blog/BlogPagination.tsx:29-92 | page 1 of 10 shows `1 2 3 4 5 ... 10` with page 1 highlighted |
| Pagination.ExampleMiddleOfTen | packages/web/components/blog/BlogPagination.tsx:29-92 | page 6 of 10 shows `1 ... 4 5 6 7 8 ... 10` with page 6 highlighted |
| Pagination.ExampleLastOfTen | packages/web/components/blog/BlogPagination.tsx:29-92 | page 10 of 10 shows `1 ... 6 7 8 9 10` with page 10 highlighted, the window shifted down from the top |
| BlogListing.RequestedPage | packages/web/app/blog/page.tsx:29-30 | a missing or empty `page` parameter means page 1 |
| BlogListing.DefaultPage | packages/web/app/blog/page.tsx:30 | the listing without a `page` parameter, or with an empty one, opens page 1 |
| BlogListing.PageOffsets | packages/web/app/blog/page.tsx:26-32 | page 1 starts at post 0, every page asks for a span of twelve posts, and the start offset is non-negative exactly for pages from 1 on |
| BlogListing.OffsetsTile | packages/web/app/blog/page.tsx:31-32 | each page's end offset is the next page's start offset |
| BlogListing.PageAtInvertsOffsets | packages/web/app/blog/page.tsx:31-32 | the page is recovered from its start offset, so different pages never share offsets |
| BlogListing.TotalPages | packages/web/app/blog/page.tsx:40 | there are no pages exactly when there are no posts, and otherwise just enough pages of twelve to hold every post |
| BlogListing.TotalPagesUnique | packages/web/app/blog/page.tsx:40 | no other page count holds every post without an empty last page |
| BlogListing.PagesWithinCount | packages/web/app/blog/page.tsx:31-40 | a page from 1 on is within the page count exactly when its start offset lies before the end of the posts |
| BlogListing.Listing | packages/web/app/blog/page.tsx:53-89 | the featured section never appears without the "Latest Posts" heading, and the post grid appears only for a non-empty page |
| BlogListing.FirstPageSections | packages/web/app/blog/page.tsx:53-66 | the featured section appears exactly on page 1 with a non-empty featured list, and the heading exactly on page 1 |
| BlogListing.PagerShown | packages/web/app/blog/page.tsx:68-89 | an empty page shows the empty state, and a non-empty page shows the pager exactly when there are more than twelve posts, drawn by the pager component |
| BlogListing.PageHrefRoundTrip | packages/web/components/blog/BlogPagination.tsx:20-25 | following the link written for any page makes the listing open that page |
| BlogListing.PreviousAndNext | packages/web/components/blog/BlogPagination.tsx:110-139 | Previous is shown exactly after page 1 and opens the page before; Next is shown exactly before the last page and opens the page after |
| BlogListing.TokenLinksInRange | packages/web/components/blog/BlogPagination.tsx:38-92 | for any parsed page, in range or not (such as page 99 of 10, or page -3), every link of the row names a page within `1..total` and opens that page |
| Slug.LowerChar | packages/studio/schemaTypes/postType.ts:20 | a capital `A`-`Z` becomes its letter of `a`-`z`, every other character is kept, and no capital remains |
| Slug.LowerAscii | packages/studio/schemaTypes/postType.ts:20 | lower-casing a title keeps its length, turns each capital into its small letter and keeps every other character in place |
| Slug.LowerFixesIff | packages/studio/schemaTypes/postType.ts:20 | lower-casing leaves a title unchanged exactly when it has no capital letter |
| Slug.LowerIdempotent | packages/studio/schemaTypes/postType.ts:20 | lower-casing twice is lower-casing once |
| Slug.Filter | packages/studio/schemaTypes/postType.ts:21 | every character kept satisfies the test and comes from the input, and nothing is added |
| Slug.FilterAppend | packages/studio/schemaTypes/postType.ts:21 | filtering a concatenation filters each part on its own and keeps their order, so each character is judged by itself |
| Slug.FilterKeepsAll | packages/studio/schemaTypes/postType.ts:21 | a text whose every character passes the test is kept whole, so deleting apostrophes leaves a text without one unchanged |
| Slug.FilterDropsAll | packages/studio/schemaTypes/postType.ts:21 | a text whose every character fails the test vanishes |
| Slug.Collapse | packages/studio/schemaTypes/postType.ts:22 | after the run replacement only `[a-z0-9-]` remains, with no `--`, and a leading letter or digit is kept |
| Slug.TrimLeading | packages/studio/schemaTypes/postType.ts:23 | only the leading hyphens are removed, all of them |
| Slug.TrimTrailing | packages/studio/schemaTypes/postType.ts:23 | only the trailing hyphens are removed, all of them |
| Slug.Slugify | packages/studio/schemaTypes/postType.ts:18-23 | every slug uses only `[a-z0-9-]`, has no `--` and no hyphen at either end |
| Slug.SlugKeepsAlnum | packages/studio/schemaTypes/postType.ts:19-23 | the slug without its hyphens is exactly the lower-cased title's letters and digits, in order |
| Slug.SlugEmptyIff | packages/studio/schemaTypes/postType.ts:22-23 | the slug is empty exactly when the lower-cased title has no letter or digit |
| Slug.SlugFixes | packages/studio/schemaTypes/postType.ts:18-23 | a string that already has the slug shape is its own slug |
| Slug.SlugifyIdempotent | packages/studio/schemaTypes/postType.ts:18-23 | slugifying a slug changes nothing |
| Slug.ApostropheDeleted | packages/studio/schemaTypes/postType.ts:21 | an apostrophe anywhere in a title is deleted without becoming a hyphen |
| Slug.CollapseWord | packages/studio/schemaTypes/postType.ts:22 | a word of letters and digits passes through the run replacement unchanged |
| Slug.CollapseSeparators | packages/studio/schemaTypes/postType.ts:22 | a run of separators before a word or at the end becomes exactly one hyphen |
| Slug.SlugOfTwoWords | packages/studio/schemaTypes/postType.ts:18-23 | two words around a run of spaces or punctuation become the two lower-cased words joined by one hyphen |
| Slug.SlugOfThreeWords | packages/studio/schemaTypes/postType.ts:18-23 | three words, each followed by a run of spaces or punctuation, become the three lower-cased words joined by hyphens, with the final run trimmed away |
| Slug.CollapseThreeWords | packages/studio/schemaTypes/postType.ts:22 | three words each followed by a separator run collapse to the words each followed by exactly one hyphen |
| Slug.SlugOfOneWord | packages/studio/schemaTypes/postType.ts:18-23 | a single word of letters and digits becomes itself, lower-cased |
| Slug.ExampleApostropheAndPunctuation | packages/studio/schemaTypes/postType.ts:18-23 | "It's a Test!!" becomes "its-a-test" |
| Slug.ExampleApostrophe | packages/studio/schemaTypes/postType.ts:21 | "It's" becomes "its" |
| Slug.ExampleCurlyApostrophe | packages/studio/schemaTypes/postType.ts:21-22 | only the ASCII apostrophe is deleted: "It’s", with U+2019, becomes "it-s" |
| Slug.ExampleTwoWords | packages/studio/schemaTypes/postType.ts:22 | "Hello, World" becomes "hello-world" |
| Slug.ExampleOnlySeparators | packages/studio/schemaTypes/postType.ts:22-23 | "---" and "!!" become the empty slug |
| Schema.SlugOf | packages/studio/schemaTypes/categoryType.ts:18-23 | post and category slugs alike use only `[a-z0-9-]`, with no `--` and no hyphen at either end |
| Schema.CategorySlugMatchesPost | packages/studio/schemaTypes/categoryType.ts:18-23 | a category gets the same slug as a post with the same title |
| Schema.SlugOfSlug | packages/studio/schemaTypes/categoryType.ts:18-23 | regenerating a slug from a slug changes nothing, for either document type |
| Schema.SlugDropsApostrophe | packages/studio/schemaTypes/categoryType.ts:21 | a category title's apostrophes are deleted without leaving a separator |
| Schema.SlugSpellsTitle | packages/studio/schemaTypes/categoryType.ts:19-23 | the slug without its hyphens spells the title's letters and digits, lower-cased |
| Schema.SlugEmptyIff | packages/studio/schemaTypes/categoryType.ts:22-23 | a title without letters or digits gets the empty slug, and only such a title |

## Left out

- The content queries (`postsQuery`, `postsCountQuery`, `featuredPostsQuery`) run inside the content store. The offsets are modelled as integers only. `BlogListing.Listing` takes the post count, the length of the fetched page and the length of the featured list as parameters. Nothing is claimed about which posts a GROQ slice returns; its `[start..end]` range is inclusive at both ends.
- The three fetches run concurrently through `Promise.all`, and the request's search parameters are read through a promise. Both are asynchronous I/O, so they are left out.
- BlogListing.RequestedPage: when `parseInt` yields `NaN` the page renders with a `NaN` page number. The model stops at `None` and does not follow that page further.
- Decimal.IntToString: the model's integers are unbounded, and `IntToString`, `ParseIntRoundTrip`, `PageHrefRoundTrip`, `PageHrefInjective` and `PreviousAndNext` agree with JavaScript only on safe integers, -(2^53 - 1) to 2^53 - 1. Beyond that a page number is not exact as a double, and from 10^21 on `${page}` writes exponent form such as `1e+21`, which `parseInt` reads back as 1.
- Decimal.ParseInt: JavaScript numbers are doubles, so the model does not cover digit strings beyond 2^53, which lose precision, or reach `Infinity`.
- Slug.Lower: only `A`-`Z` are lower-cased. JavaScript's full Unicode `toLowerCase` maps further characters, some to ASCII letters or to several code points.
- React rendering, CSS class names, the "Featured Posts" and empty-state markup, and the `Suspense` fallback are presentation. Only which sections appear is modelled.
- The schema declarations other than `slugify` are enforced by the content studio. This covers field lists and the `required` and `max` validation rules.
- The category and author listing pages, related posts and the home page section are not part of this model.
