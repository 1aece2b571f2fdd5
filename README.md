# News pipeline duplicate filter — a Dafny model

This project models the decision logic of a scheduled news pipeline
(`main.py`). Each run fetches a small batch of articles, drops exact and
near-duplicates against what the spreadsheet already holds, attaches a
one-sentence AI summary to each survivor, and appends one row per survivor
to the sheet in a single batched write.

Files and modules:

- `wrappers.dfy` — `Option`, for Python values that may be `None`.
- `news.dfy` (`News`) — an article as a decoded JSON object. Each key is
  `Missing`, `Null` or `Text(s)`, so `dict.get(key)` and
  `dict.get(key, default)` can be told apart. Also the nine-cell output row
  and its builder.
- `summary.dfy` (`Summary`) — `get_ai_summary`'s sentinel selection, with
  Python's `str.strip`. The trimming scans forward over leading whitespace
  and then backward down to that point, as CPython does. It is stated for any
  character class; `Strip` uses CPython's whitespace table.
- `dedup.dfy` (`Dedup`) — the filter loop of `main`:
  - `PassFrom`/`Filter` are a recursive reference definition of the loop over
    `reversed(articles)`.
  - Idempotence needs both known sets. Re-seeding with the accepted links
    alone is not enough, as `LinksOnlyRerunAccepts` shows.
  - `IsSemanticDuplicate` and `FilterBatch` are the imperative loops, proved
    equal to that definition.
  - The lemmas state what the filter guarantees.
- `pipeline.dfy` (`Pipeline`) — one run: early exits on a failed sheet
  connection or fetch, seeding from columns 2 and 6, and the commit decision.

The similarity score (`fuzz.token_sort_ratio`) is an arbitrary function from
pairs of titles to `0..100`. Nothing else about it is assumed: not symmetry,
not normalisation, not its value on empty strings. Titles are
`Option<string>` because `article.get('title')` may be `None`, and a `None`
title does enter the known-title set.

The model follows what the code does in three places where a reader might expect otherwise:

- The timestamp falls back to the clock only when the `pubDate` key is
  absent. A `null` `pubDate` gives an empty (`None`) cell.
- No special score is given to empty titles.
- Symmetry of the similarity is not relied on.

## Model

| member | source | states |
|---|---|---|
| `News.Truthy` | main.py:84 | a plain definition of Python truthiness for an optional string (neither `None` nor `""`); used by `AcceptedIff`, `MissingLinkRejected`, `AiSummary` and `NotAvailableExactly` |
| `News.Get` | main.py:81-82 | `dict.get(key)`: `Some(s)` exactly for a string value, `None` for an absent key or `null` |
| `News.GetOr` | main.py:96 | `dict.get(key, default)`: the default only for an absent key, otherwise the same as `Get` (so `null` stays `None`) |
| `News.Timestamp` | main.py:96 | the timestamp cell is `now` when `pubDate` is absent, `None` when it is `null`, the string otherwise |
| `News.FaviconUrl` | main.py:95-97 | the favicon URL is the fixed prefix, then the domain, then `&sz=64`; the domain is recoverable from it |
| `News.BuildRow` | main.py:95-97 | the nine cells by sheet column: empty status, title, summary, image URL, source id, link (column 6), favicon, timestamp, `"Published"` |
| `Summary.IsSpace` | main.py:33 | a plain definition: the characters for which CPython's `str.isspace` holds; `Strip` drops exactly these at both ends |
| `Summary.SkipForward` | main.py:33 | the scan from `i` stops at the first non-whitespace position (or the end), and everything it passes is whitespace |
| `Summary.SkipBackward` | main.py:33 | the backward scan from `j` never goes below `lo`, passes only whitespace, and stops after a non-whitespace character unless it reached `lo` |
| `Summary.TrimBoth` | main.py:33 | a plain definition, `s[StripStart..StripEnd]` as CPython's `do_strip` computes it; its properties are `TrimBothSlice`, `UnpaddedUntouched` and `TrimBothIdempotent` |
| `Summary.Strip` | main.py:33 | a plain definition: `TrimBoth` over `IsSpace`; its properties are the `TrimBoth` lemmas at `IsSpace`, and `SummaryUnpadded` |
| `Summary.TrimBothSlice` | main.py:33 | `strip()` yields the contiguous slice `s[i..j]`; both cut ends are all whitespace; no whitespace remains at either end |
| `Summary.UnpaddedUntouched` | main.py:33 | a string without surrounding whitespace is unchanged by `strip()` |
| `Summary.TrimBothIdempotent` | main.py:33 | stripping twice equals stripping once |
| `Summary.AiSummary` | main.py:22-36 | "Summary not available." when the description or the API key is falsy; "AI summary failed." when the call raises; else the stripped reply |
| `Summary.NotAvailableExactly` | main.py:24-25 | the "not available" sentinel appears iff an input is falsy, or the backend itself replied with that sentence |
| `Summary.SummaryUnpadded` | main.py:24-36 | every summary, sentinel or reply, has no surrounding whitespace |
| `Dedup.IsNewLink` | main.py:84 | a plain definition of the link test: truthy and not yet known; used by `AcceptedIff`, `SameLinkOnce` and `RerunFrom` |
| `Dedup.NearDuplicate` | main.py:86-91 | a plain definition: some known title scores strictly above 50; `IsSemanticDuplicate` is proved to compute it |
| `Dedup.Admits` | main.py:84-93 | a plain definition of acceptance against the current known sets; `AcceptedIff` ties it to the loop |
| `Dedup.RowFor` | main.py:94-97 | a plain definition: an accepted candidate's row, `BuildRow` of its link, its summary from `AiSummary`, its host and its clock reading; `PassShape` and `FailedSummaryKeepsRow` state what the rows hold |
| `Dedup.HostsParse` | main.py:95 | a plain definition: `urlparse` succeeds on every accepted link; `FilterBatch` fails exactly when it does not |
| `Dedup.Visit` | main.py:81-101 | a plain definition of one loop turn; `StepEffect` states its effect |
| `Dedup.PassFrom` | main.py:80-101 | a plain definition: the state after visiting positions `|arts|-1` down to `k`; the `Pass…` and `Accepted…` lemmas state its properties |
| `Dedup.Filter` | main.py:80-101 | a plain definition: `PassFrom` from position 0, the whole batch in reverse; `FilterBatch` is proved to compute it |
| `Dedup.PassShape` | main.py:80-101 | one row per accepted candidate; accepted positions strictly decrease (reverse input order); every accepted link is truthy; each row is built from its own candidate |
| `Dedup.PassKnown` | main.py:97-101 | the known sets are the seeds plus the link column and title column of the rows built |
| `Dedup.RowCells` | main.py:97-101 | each accepted candidate's link is in the rows' link column and in the known links; its title is in the known titles |
| `Dedup.PassPrefix` | main.py:80-101 | visiting further candidates only appends smaller positions and only grows the known sets |
| `Dedup.AcceptedIff` | main.py:84-93 | a candidate is accepted iff its link is truthy and unknown and no title known at its turn scores above 50 |
| `Dedup.MissingLinkRejected` | main.py:84 | a candidate with a missing, `null` or empty link is never accepted, whatever its title |
| `Dedup.AcceptedLinksFresh` | main.py:84-100 | no accepted link was initially known; accepted links are pairwise distinct; the link set grows by exactly one per acceptance |
| `Dedup.AcceptedTitlesDistant` | main.py:86-101 | each accepted title scores at most 50 against every seeded title and every title accepted before it in the batch |
| `Dedup.StepEffect` | main.py:84-101 | one turn: sets only grow; a rejection changes nothing; an acceptance adds exactly its new link, its title and one row |
| `Dedup.SameLinkOnce` | main.py:84-100 | of two candidates sharing a link, the second one visited is rejected on the link alone once the first was accepted |
| `Dedup.NearDuplicateRejected` | main.py:86-93 | a candidate scoring above 50 against any title known at its turn is rejected |
| `Dedup.AcceptanceIgnoresSummary` | main.py:93-98 | the accepted positions and the final known sets do not depend on API key, replies, host or clock |
| `Dedup.FailedSummaryKeepsRow` | main.py:93-98 | an accepted candidate whose summary call raised still gets a row, with "AI summary failed." as its summary |
| `Dedup.RerunFrom` | main.py:84-101 | with seeds containing a first run's final sets, no suffix of the batch accepts anything |
| `Dedup.RerunWithSupersets` | main.py:84-101 | re-running on the same batch with seeds containing the first run's final known sets accepts nothing and builds no row |
| `Dedup.LinksOnlyRerunAccepts` | main.py:84-101 | a re-run seeded with the accepted links alone can accept something: on `[a: "x", b: "y"]`, `a` is rejected only as a near-duplicate of `b`, then accepted when only `b`'s link is known. This is why `RerunWithSupersets` needs both sets |
| `Dedup.RerunAfterAppend` | main.py:97-104 | seeding a re-run with the old seeds plus the appended rows' link and title columns builds no row |
| `Dedup.IsSemanticDuplicate` | main.py:85-91 | the inner loop reports a duplicate iff some known title scores strictly above 50 |
| `Dedup.FilterBatch` | main.py:78-101 | the loop over `reversed(articles)` fails exactly when `urlparse` raises on an accepted link; otherwise it returns exactly the rows, known sets and accepted positions of the reference definition `Filter` |
| `Pipeline.Seed` | main.py:74-75 | the known links are the link column's values; the known titles are the title column's values |
| `Pipeline.Run` | main.py:38-107 | no write if the sheet connection or the fetch failed, or if `urlparse` raised on an accepted link; otherwise one append exactly when some candidate was accepted, with the filter's rows in order |
| `Pipeline.SecondRunWritesNothing` | main.py:74-104 | a second run on the same batch, against a sheet holding the first run's appended link and title cells, accepts nothing |

## Left out

- Authenticating with Google Sheets, opening the sheet, and the choice between
  inline and file credentials (main.py:43-57) are external I/O. A failed
  connection is the `None` case of `Run`'s `sheet`.
- The Newsdata request, its parameters and the JSON decoding (main.py:60-70)
  are network plumbing. The batch is a parameter, and a failed request is the
  `None` case of `fetched`.
- `col_values` and `append_rows` are external calls. The columns are inputs.
  The append is the returned `Write`.
- How the sheet stores and returns what is appended is not modelled.
  `SecondRunWritesNothing` therefore requires, rather than derives, that the
  second sheet holds the appended cells. This matters in two ways:
  - With `value_input_option='USER_ENTERED'` (main.py:104), the sheet parses
    every written string. Numbers, dates and a leading `=` or `'` can change,
    so `col_values` may return a string other than the one written.
  - `SecondRunWritesNothing`'s requires never holds for a batch in which an
    accepted title was `None`, because every seeded title is `Some`. Such a
    batch is covered only by `RerunWithSupersets`, at the known-set level.
- The OpenAI call (prompt text, model, temperature, token cap) is a foreign
  call. Its outcome per batch position is the `Reply` parameter `env.reply`.
  A reply whose content is not a string raises inside `strip`; that case is
  covered by `Raised`.
- `fuzz.token_sort_ratio` is a third-party library and stays abstract.
  Therefore the token-reordering example ("GPT-5 launches from OpenAI" vs
  "OpenAI launches GPT-5") cannot be derived. Only its consequence is stated
  (`NearDuplicateRejected`).
- `urlparse(link).netloc` (`env.host`) and `datetime.now(timezone.utc).isoformat()`
  (`env.clock`, one reading per batch position) are foreign calls and are
  parameters. Which links make `urlparse` raise (such as a malformed bracketed
  host, `"http://[::1"`) is left to `env.host` returning `None`. That failure
  is not caught in `main`, so `Run` then writes nothing.
- Non-string JSON values (numbers, lists) for article fields are not
  modelled. Each field is absent, `null` or a string.
- Environment loading, the module-level `openai.api_key` assignment, logging
  and the `__main__` block (main.py:12-20, 109-119) are configuration and
  plumbing. The API key is the `env.apiKey` parameter.
- The order in which Python iterates a set is unspecified. `IsSemanticDuplicate`
  picks titles nondeterministically; its result does not depend on the order.
  The logged score does, and logging is not modelled.
