# Goodreads rating scraper — a Dafny model of its sequential core

`main.py` is a one-file script. It reads a CSV of book titles and authors. Optionally it asks a
language model whether each title/author pairing is right and applies any correction. It then
looks every book up on Goodreads and appends the average rating and the number of ratings to its
row. Most of the script is I/O. This project models the deterministic layer between the I/O calls
as pure Dafny functions, and proves what the code promises about it.

- **`Verify`**: models `verify_book_info` and the fail-open return of `verify_title_and_author`.
  Each reply either:
  - confirms the row (`"correct"` in any case, surrounding whitespace ignored);
  - is parsed as `title: '…', author: '…'` and replaces the title and author;
  - or fails to parse, in which case the row is kept and the exception text recorded.

  A failed or empty model call reads as `"correct"`. The stage keeps one row per input row, in
  order, and adds one comparison entry per reply that is not "correct".
- **`Strings`**: Python's `lower`, `strip`, `strip(chars)`, `replace`, `find`, `split` and `join`,
  with leftmost, non-overlapping `split` semantics. Only ASCII case and ASCII whitespace are
  modelled.
- **`Decimal`**: digit strings and the number `int(...)` reads from them.
- **`Retry`**: the `make_request` loop. It makes up to `max_retries` attempts, stops at the first
  success, and sleeps `2^i` after each failed attempt `i` except the last. The attempt outcomes
  are an input sequence; attempts the sequence does not cover count as failures.
- **`Enrich`**: `scrape_book_data`, covering:
  - the lower-cased `+`-joined search query;
  - the search URL;
  - the two regex groups, given as a structured match;
  - the count with its comma removed;
  - the row plus exactly two fields, read from the page fetched at the row's own search URL.
- **`Pipeline`**: `scrape_gr_data`. Task outcomes and the completion order of the tasks are
  inputs. A raised task gives the row plus two Nones; a one-field row always raises, since it
  cannot be unpacked into a title and an author. The header line gains `rating` and
  `num_ratings`. Results go to the output file, else to the backup file, else to the console.

## Model

| member | source | states |
|---|---|---|
| Retry.Fetch | main.py:54-64 | At most `max_retries` attempts (none when it is not positive). A response comes back exactly when some attempt within the budget succeeds, and it is that of the first success; every earlier attempt failed. When every attempt fails, all of them are made. There is one sleep fewer than attempts, and sleep `i` is `2^i`. |
| Retry.MakeRequest | main.py:54-64 | The `for attempt in range(max_retries)` loop with its early returns computes exactly the run `Fetch` describes. |
| Retry.FetchFirstSuccess | main.py:54-58 | If attempt `k` is the first to succeed within the budget, the loop returns its response after `k + 1` attempts. |
| Retry.BackoffTotal | main.py:64 | The sleeps `2^0 … 2^(n-1)` sum to `2^n - 1`. |
| Retry.DefaultRetryBounds | main.py:49-64 | With the default `max_retries=5`: at most five attempts and at most 15 time units of sleep. |
| Verify.ReplyText | main.py:168-171 | An API exception, a null content or an empty content all become "correct"; any other content is returned as is. |
| Verify.FailOpenIsCorrect | main.py:168-171 | Each fail-open reply, and the bare reply "Correct", is read as a confirmation. |
| Verify.ParseSuggestion | main.py:118-123 | ValueError ("Unexpected response format") exactly when the reply, newlines made spaces, does not split into two parts around ", author:". A success yields two fields, neither beginning nor ending with `'`. |
| Verify.ParseFailsIff | main.py:118-123 | The parser fails exactly when there are not two parts around ", author:", or when the first part contains no "title:" (the IndexError case). |
| Verify.IsCorrect | main.py:113 | A confirming reply has at least seven characters, since lower-casing keeps the length and stripping never adds any. A reply without whitespace confirms exactly when it lower-cases to "correct". |
| Verify.Judge | main.py:113-123 | The verdict is a confirmation exactly when the lower-cased, stripped reply is "correct". Otherwise it is the parser's title and author, or the parser's error, whichever the parser produced. |
| Verify.Apply | main.py:113-135 | Every branch preserves the row's length and its fields after the author. An entry is added exactly when the verdict is not a confirmation, and it holds the old title and author. A suggestion installs the new fields and records no error. A rejection keeps the row and records the exception text. |
| Verify.VerifyRow | main.py:110-135 | One loop iteration keeps the row's length and every field after the author. It adds an entry exactly when the reply is not "correct", and without an entry the row is unchanged. |
| Verify.VerifyRowSpec | main.py:110-135 | An entry's old values are the row's title and author. A changed row comes only from a successful parse, and its entry has no error. |
| Verify.VerifyRowBranches | main.py:117-135 | For a reply that is not "correct", the iteration gives `[new_title, new_author] + rest` with `[title, new_title, author, new_author, None]`, or the unchanged row with `[title, title, author, author, str(e)]`. |
| Verify.FlaggedIsNonCorrect | main.py:113-136 | The number of non-confirmation verdicts equals the number of replies that are not "correct". |
| Verify.UpdatedRowsAt | main.py:114-135 | Output row `i` is input row `i` acted on by its own verdict. |
| Verify.ApplyAll | main.py:109-137 | The row loop builds the updated rows and the comparison entries in input order. |
| Verify.StageRowsAt | main.py:109-137 | Output row `i` is input row `i` after its own reply. |
| Verify.VerifyBookInfo | main.py:103-152 | Headers are kept and the report header is the five comparison column names. There is one output row per input row, in order, each the input row after its own reply. There is one entry per reply that is not "correct". |
| Verify.AuthorPartsOfFormatted | main.py:118-119 | A reply in the requested format splits around ", author:" into exactly the quoted-title part and the quoted-author part, provided the fields hold no newline or marker. |
| Verify.TitlePartsOfQuoted | main.py:120 | The quoted-title part splits around "title:" into an empty piece and the quoted title. |
| Verify.StripQuotedField | main.py:120-121 | `.strip().strip("'")` of ` '<F>'` gives back `F` when `F` does not begin or end with a quote. |
| Verify.ParseFormatted | main.py:118-121 | Round trip: formatting a title and author as the prompt at main.py:156 asks, then parsing, gives them back. This holds when neither field holds a newline, a marker or an edge quote. |
| Verify.FormattedIsNotCorrect | main.py:113 | A reply in the requested format is never mistaken for "correct". |
| Verify.JudgeFormatted | main.py:113-128 | Such a reply is judged a suggestion of exactly its title and author. |
| Verify.SuggestionApplied | main.py:113-131 | Such a reply rewrites the row to `[title, author] + rest` and records the old and new values with no error. |
| Verify.DuneText | main.py:156 | The example reply is the requested format filled with "Dune" and "Frank Herbert". |
| Verify.DuneExample | main.py:118-128 | `title: 'Dune', author: 'Frank Herbert'` is read as the suggestion Dune / Frank Herbert. |
| Strings.Lower | main.py:113 | `lower()` keeps the length. |
| Strings.LowerSpec | main.py:113 | `lower()` keeps the length, maps each ASCII capital to its small letter, leaves every other character alone, and leaves no capital. |
| Strings.LowerIdempotent | main.py:113 | Lower-casing twice is lower-casing once. |
| Strings.StripSetSpec | main.py:113 | `strip(chars)` leaves a contiguous run of the input with neither end in the set; everything removed on either side is in the set. |
| Strings.Strip | main.py:113 | `strip()` never lengthens a string, leaves no whitespace at either end, and leaves a string without whitespace alone. |
| Strings.StripQuotes | main.py:120-121 | `strip("'")` never lengthens a string, leaves no quote at either end, and leaves a string without quotes alone. |
| Strings.ReplaceChar | main.py:118 | `replace(a, b)` keeps the length, leaves no `a` behind when `b` differs, turns each `a` into `b` and keeps every other character. |
| Strings.DeleteChar | main.py:190 | `replace(c, "")` leaves no `c`, never lengthens a string, and leaves a string without `c` alone. |
| Strings.Split | main.py:118-120 | `split(sep)` always yields at least one piece. |
| Strings.FindSpec | main.py:118 | The index found is an occurrence, and no earlier one exists; there is none exactly when the separator does not occur. |
| Strings.SplitJoin | main.py:118 | `sep.join(s.split(sep)) == s`. |
| Strings.SplitPiecesFree | main.py:118 | No piece of `s.split(sep)` contains `sep`. |
| Strings.SplitSingleIff | main.py:119 | `s.split(sep)` has one piece exactly when `sep` does not occur in `s`. |
| Strings.SplitExactlyOnce | main.py:118-120 | A string in which `sep` occurs only at `k` splits into the text before and the text after it. |
| Strings.DeleteCharAppend | main.py:190 | `replace(",", "")` distributes over concatenation. |
| Decimal.DigitsValue | main.py:190 | `int()` of a digit string is below `10^len`. |
| Decimal.DigitsValueAppend | main.py:190 | The value of `a + b` is the value of `a` shifted past `b`'s digits, plus the value of `b`. |
| Decimal.DigitsRoundTrip | main.py:190 | `int(str(n)) == n`. |
| Enrich.Query | main.py:176 | The query has length `len(title) + len(author) + 1`, the joining `+` sits at `len(title)`, and no space is left. |
| Enrich.QuerySpec | main.py:176 | The query has length `len(title) + len(author) + 1` and the joining `+` sits at `len(title)`. Every other character is the title's or author's, with spaces made `+` and capitals lowered. No space is left. |
| Enrich.QueryIgnoresCase | main.py:176 | Lower-casing title and author beforehand does not change the query. |
| Enrich.SearchUrl | main.py:177 | The URL is the fixed prefix and suffix around the query, and the query can be read back out of it. |
| Enrich.SearchUrlParts | main.py:177 | The URL starts with `GR_URL` and the search path and ends with `&qid=`, and the query can be read back out of it. |
| Enrich.SearchUrlInjective | main.py:177 | Distinct queries give distinct URLs. |
| Enrich.Group1 | main.py:189 | The rating text holds exactly one point, right after the whole part. |
| Enrich.Group2 | main.py:190 | The count text holds a comma exactly when the match has one, and has one character per digit plus that comma. |
| Enrich.CountDigits | main.py:190 | Removing the comma from group 2 leaves the two digit runs side by side. |
| Enrich.CountOf | main.py:190 | `int(group(2).replace(",", ""))` is the number the digits before and after the comma spell together. |
| Enrich.CountExample | main.py:184-190 | The groups "4.25" and "1,234" give the rating text "4.25" and the count 1234. |
| Enrich.ScrapeBookData | main.py:174-196 | The input row unchanged, followed by exactly two fields. Both are None when all five attempts on the row's own search URL fail, and they are None together. When present, they are the rating text and the count of a match on a page some attempt on that URL returned within the budget. |
| Enrich.ScrapeReadsOwnUrl | main.py:175-179 | The row's result depends only on what is fetched from the search URL built from its own title and author. |
| Enrich.ScrapeFollowsFirstSuccess | main.py:179-196 | The two fields come from the first successful attempt's page on the row's search URL: None, None without a match, else the rating and the count. |
| Pipeline.TaskResult | main.py:216-222 | Each completed task contributes its row unchanged plus two fields, those `scrape_book_data` computed. A task that raised, and every one-field row, whose unpacking raises, contributes the row with None, None. |
| Pipeline.ResultShape | main.py:216-222 | Whatever the task did, the text fields are kept and exactly two cells are added. They are None, None when every fetch attempt failed. |
| Pipeline.PermutationInRange | main.py:211-215 | A completion order is as long as the row list and names only existing rows. |
| Pipeline.PickRearranged | main.py:211-219 | Taking elements by two index lists that rearrange each other yields the same multiset. |
| Pipeline.PermutedMultiset | main.py:211-219 | Results collected in any completion order are a rearrangement of the per-row results. |
| Pipeline.Collect | main.py:213-223 | The `as_completed` loop appends the k-th completed task's result as result k. |
| Pipeline.WriteChain | main.py:228-241 | The output file is always tried first. The backup file is tried exactly when that write fails, and the console is used exactly when both fail. Each attempt gets the same headers and results. |
| Pipeline.ScrapeGrData | main.py:210-241 | Headers gain exactly "rating" and "num_ratings". Result `k` is the result of the `k`-th task to complete, so the results are a rearrangement of the per-row results. The writes follow the fallback chain. |

## Left out

- HTTP: the `Retry`/`HTTPAdapter` transport policy (main.py:29-46), the User-Agent header and the timeouts. The outcome of each GET attempt is an input.
- The OpenAI chat call and its prompt text (main.py:155-167). This is a foreign API. Only the value `verify_title_and_author` returns on failure or empty content is modelled.
- Seed-table scraping (main.py:78-100). It is a thin layer over an HTML parser that is not part of this model. The loop there skips the first `<tr>`.
- CSV quoting, escaping and file reading and writing. Rows are plain sequences of strings, and a write is modelled as an output action that succeeds or raises.
- `ThreadPoolExecutor`, `as_completed`, `tqdm` and every `sleep`. Completion order is an input permutation, and backoff delays are values in a list, not waits. The `GR_DELAY` and one-second pauses are not modelled.
- All console output except the last-resort printing of the results.
- `float(match.group(1))`: the rating is kept as its decimal text, because floating point is not modelled.
- The regex search (main.py:184-185). Its first match is an input that holds the two groups' digit runs. With two or more commas in the displayed number, the pattern matches only a suffix, so the count is not claimed to equal the displayed number.
- Unicode case mapping and Unicode whitespace. `lower()` and `strip()` are modelled on ASCII only.
- Rows with fewer than two fields are excluded from `Verify` by its preconditions: `verify_book_info` unpacks the row outside its `try` (main.py:110) and crashes on them. `Pipeline` accepts a one-field row, whose task raises and which gets two Nones. It excludes only the empty row, on which printing `row[0]` (main.py:221) crashes.
- The query is placed into the URL as is, without URL-encoding. The code does no encoding, so the model places the query into the URL as is.
- Digits are the ASCII digits `0`-`9` only. Python's `\d` and `int()` also accept other Unicode decimal digits.
- A response object is truthy once `raise_for_status` has passed, so `if not response` (main.py:180) is modelled as "no response".
- Attempts past the end of the outcome sequence count as failures. The source has no such sequence; this is how the model supplies an outcome for every attempt.
