/**
 * The per-book enrichment step `scrape_book_data`: build the Goodreads search
 * query and URL from the row's title and author, fetch the page through the
 * retry loop, and append the rating and the number of ratings found on it
 * (or two Nones) to the row.
 */
module Enrich {
  import opened Wrappers
  import opened Strings
  import opened Decimal
  import opened Retry

  const GrUrl: string := "https://www.goodreads.com"

  /** The text of the search URL before the query. */
  const SearchPrefix: string := "https://www.goodreads.com/search?q="

  /** The text of the search URL after the query. */
  const SearchSuffix: string := "&qid="

  /**
   * A cell of an enriched row: a text field read from the input CSV, Python's
   * `None`, a rating (kept as the decimal text `float` is applied to), or the
   * number of ratings.
   */
  datatype Field = Text(text: string) | Null | Rating(decimal: string) | Count(value: nat)

  /** The input row's text fields as cells. */
  function AsFields(row: seq<string>): (fs: seq<Field>)
    ensures |fs| == |row|
    ensures forall i :: 0 <= i < |row| ==> fs[i] == Text(row[i])
  {
    seq(|row|, i requires 0 <= i < |row| => Text(row[i]))
  }

  /** One character of the query: a space becomes `+`, an ASCII capital its small letter. */
  function QueryChar(c: char): char {
    if c == ' ' then '+' else LowerChar(c)
  }

  /**
   * `(title + " " + author).replace(" ", "+").lower()`: one character per
   * character of title and author, joined by a `+`, with no space left.
   */
  function Query(title: string, author: string): (q: string)
    ensures |q| == |title| + |author| + 1
    ensures q[|title|] == '+'
    ensures ' ' !in q
  {
    var joined := title + " " + author;
    var replaced := ReplaceChar(joined, ' ', '+');
    LowerSpec(replaced);
    assert joined[|title|] == ' ';
    Lower(replaced)
  }

  /**
   * The query has one character per character of title and author plus the
   * joining `+`; each of them is the title's or author's character with
   * spaces turned into `+` and capitals lowered, so no space survives.
   */
  lemma QuerySpec(title: string, author: string)
    ensures |Query(title, author)| == |title| + |author| + 1
    ensures Query(title, author)[|title|] == '+'
    ensures forall i :: 0 <= i < |title| ==> Query(title, author)[i] == QueryChar(title[i])
    ensures forall i :: 0 <= i < |author| ==> Query(title, author)[|title| + 1 + i] == QueryChar(author[i])
    ensures ' ' !in Query(title, author)
  {
    var joined := title + " " + author;
    var replaced := ReplaceChar(joined, ' ', '+');
    var q := Query(title, author);
    LowerSpec(replaced);
    assert joined[|title|] == ' ';
    forall i | 0 <= i < |title| ensures q[i] == QueryChar(title[i]) {
      assert joined[i] == title[i];
    }
    forall i | 0 <= i < |author| ensures q[|title| + 1 + i] == QueryChar(author[i]) {
      assert joined[|title| + 1 + i] == author[i];
    }
    forall i | 0 <= i < |q| ensures q[i] != ' ' {
      assert replaced[i] != ' ';
    }
  }

  /** The query ignores ASCII case: lower-casing title and author first changes nothing. */
  lemma QueryIgnoresCase(title: string, author: string)
    ensures Query(Lower(title), Lower(author)) == Query(title, author)
  {
    LowerSpec(title);
    LowerSpec(author);
    QuerySpec(title, author);
    QuerySpec(Lower(title), Lower(author));
    var q, q' := Query(title, author), Query(Lower(title), Lower(author));
    forall i | 0 <= i < |q| ensures q'[i] == q[i] {
      if i < |title| {
      } else if i > |title| {
        assert q'[|title| + 1 + (i - |title| - 1)] == QueryChar(Lower(author)[i - |title| - 1]);
      }
    }
  }

  /** The query text inside a search URL. */
  function UrlQuery(url: string): (q: string)
    requires |url| >= |SearchPrefix| + |SearchSuffix|
  {
    url[|SearchPrefix|..|url| - |SearchSuffix|]
  }

  /** `f"{GR_URL}/search?q={q}&qid="`: the query can be read back out of the URL. */
  function SearchUrl(q: string): (url: string)
    ensures |url| == |SearchPrefix| + |q| + |SearchSuffix|
    ensures UrlQuery(url) == q
  {
    SearchPrefix + q + SearchSuffix
  }

  /** The URL starts with Goodreads' address and the search path, ends with `&qid=`, and gives back its query. */
  lemma SearchUrlParts(q: string)
    ensures SearchPrefix == GrUrl + "/search?q="
    ensures |SearchUrl(q)| == |SearchPrefix| + |q| + |SearchSuffix|
    ensures SearchUrl(q)[..|GrUrl|] == GrUrl
    ensures SearchUrl(q)[|SearchUrl(q)| - |SearchSuffix|..] == SearchSuffix
    ensures UrlQuery(SearchUrl(q)) == q
  {
    var url := SearchUrl(q);
    assert url[..|SearchPrefix|] == SearchPrefix;
    assert SearchPrefix[..|GrUrl|] == GrUrl;
    assert url[..|GrUrl|] == url[..|SearchPrefix|][..|GrUrl|];
  }

  /** Distinct queries give distinct URLs. */
  lemma SearchUrlInjective(q1: string, q2: string)
    ensures SearchUrl(q1) == SearchUrl(q2) ==> q1 == q2
  {
    SearchUrlParts(q1);
    SearchUrlParts(q2);
  }

  /**
   * The two groups of a match of `(\d+\.\d+) avg rating.*?(\d+,?\d*) ratings`:
   * the rating `whole.frac`, and the count `lead`, an optional comma, and `tail`.
   */
  datatype RatingMatch = RatingMatch(whole: DigitRun, frac: DigitRun, lead: DigitRun, comma: bool, tail: Digits)

  /** `match.group(1)`: the decimal text of the rating, with its one point right after the whole part. */
  function Group1(m: RatingMatch): (g: string)
    ensures |g| == |m.whole| + 1 + |m.frac|
    ensures forall i :: 0 <= i < |g| ==> (g[i] == '.' <==> i == |m.whole|)
  {
    var g := m.whole + "." + m.frac;
    assert forall i :: 0 <= i < |g| && i != |m.whole| ==> IsDigit(g[i]) by {
      forall i | 0 <= i < |g| && i != |m.whole| ensures IsDigit(g[i]) {
        if i < |m.whole| {
          assert g[i] == m.whole[i];
        } else {
          assert g[i] == m.frac[i - |m.whole| - 1];
        }
      }
    }
    g
  }

  /** `match.group(2)`: the count as displayed, holding a comma exactly when the match has one. */
  function Group2(m: RatingMatch): (g: string)
    ensures |g| == |m.lead| + |m.tail| + (if m.comma then 1 else 0)
    ensures ',' in g <==> m.comma
  {
    var mid: string := if m.comma then "," else "";
    var g := m.lead + mid + m.tail;
    assert forall i :: 0 <= i < |m.lead| ==> m.lead[i] != ',';
    assert forall i :: 0 <= i < |m.tail| ==> m.tail[i] != ',';
    assert m.comma ==> g[|m.lead|] == ',';
    g
  }

  /** Removing the comma from group 2 leaves the two digit runs side by side. */
  lemma CountDigits(m: RatingMatch)
    ensures DeleteChar(Group2(m), ',') == m.lead + m.tail
    ensures AllDigits(m.lead + m.tail)
  {
    var mid: string := if m.comma then "," else "";
    assert forall i :: 0 <= i < |m.lead| ==> m.lead[i] != ',';
    assert forall i :: 0 <= i < |m.tail| ==> m.tail[i] != ',';
    DeleteCharAppend(m.lead + mid, m.tail, ',');
    DeleteCharAppend(m.lead, mid, ',');
    assert DeleteChar(mid, ',') == "";
    assert m.lead + "" == m.lead;
    AllDigitsAppend(m.lead, m.tail);
  }

  /**
   * `int(match.group(2).replace(",", ""))`: the number the digits before and
   * after the comma spell together, as if the comma were not there.
   */
  function CountOf(m: RatingMatch): (n: nat)
    ensures n == DigitsValue(m.lead) * Pow10(|m.tail|) + DigitsValue(m.tail)
  {
    CountDigits(m);
    DigitsValueAppend(m.lead, m.tail);
    DigitsValue(DeleteChar(Group2(m), ','))
  }

  /** "4.25 avg rating ... 1,234 ratings" gives the rating text "4.25" and the count 1234. */
  lemma CountExample(m: RatingMatch)
    requires m == RatingMatch("4", "25", "1", true, "234")
    ensures Group1(m) == "4.25"
    ensures Group2(m) == "1,234"
    ensures CountOf(m) == 1234
  {
    assert DigitsValue("2") == 2;
    assert DigitsValue("23") == 23 by { assert "23"[..1] == "2"; }
    assert DigitsValue("234") == 234 by { assert "234"[..2] == "23"; }
    assert DigitsValue("1") == 1;
  }

  /** A fetched search page, reduced to the first match of the rating pattern in its text, if any. */
  datatype Page = Page(ratingMatch: Option<RatingMatch>)

  /** The URL `scrape_book_data` fetches for a row: the search URL of the query made from its title and author. */
  function BookUrl(row: seq<string>): string
    requires |row| >= 2
  {
    SearchUrl(Query(row[0], row[1]))
  }

  /**
   * `scrape_book_data(row)`, where `web` gives the outcomes of the GET
   * attempts on each URL: the row followed by the rating and the count found
   * on the page fetched from the row's own search URL, both None when every
   * attempt failed or the page holds no match.
   */
  function ScrapeBookData(row: seq<string>, web: string -> seq<Attempt<Page>>): (r: seq<Field>)
    requires |row| >= 2
    ensures |r| == |row| + 2
    ensures r[..|row|] == AsFields(row)
    ensures (forall j :: 0 <= j < MaxRetries ==> AttemptAt(web(BookUrl(row)), j).Failed?) ==> r[|row|..] == [Null, Null]
    ensures r[|row|] == Null <==> r[|row| + 1] == Null
    ensures r[|row|] != Null ==>
              exists j, m :: 0 <= j < MaxRetries && AttemptAt(web(BookUrl(row)), j) == Succeeded(Page(Some(m))) &&
                r[|row|..] == [Rating(Group1(m)), Count(CountOf(m))]
  {
    var run := Fetch(web(BookUrl(row)), MaxRetries);
    var extra := match run.response
      case None => [Null, Null]
      case Some(page) =>
        match page.ratingMatch
        case None => [Null, Null]
        case Some(m) => [Rating(Group1(m)), Count(CountOf(m))];
    assert (AsFields(row) + extra)[..|row|] == AsFields(row);
    AsFields(row) + extra
  }

  /**
   * What the web answers at any URL other than the row's own search URL has
   * no effect on the row's result.
   */
  lemma ScrapeReadsOwnUrl(row: seq<string>, web1: string -> seq<Attempt<Page>>, web2: string -> seq<Attempt<Page>>)
    requires |row| >= 2
    requires web1(BookUrl(row)) == web2(BookUrl(row))
    ensures ScrapeBookData(row, web1) == ScrapeBookData(row, web2)
  {
  }

  /** The outcome of `scrape_book_data` follows the first successful attempt's page. */
  lemma ScrapeFollowsFirstSuccess(row: seq<string>, web: string -> seq<Attempt<Page>>, k: nat)
    requires |row| >= 2
    requires k < MaxRetries
    requires AttemptAt(web(BookUrl(row)), k).Succeeded?
    requires forall j :: 0 <= j < k ==> AttemptAt(web(BookUrl(row)), j).Failed?
    ensures AttemptAt(web(BookUrl(row)), k).response.ratingMatch.None? ==> ScrapeBookData(row, web)[|row|..] == [Null, Null]
    ensures AttemptAt(web(BookUrl(row)), k).response.ratingMatch.Some? ==>
              var m := AttemptAt(web(BookUrl(row)), k).response.ratingMatch.value;
              ScrapeBookData(row, web)[|row|..] == [Rating(Group1(m)), Count(CountOf(m))]
  {
    FetchFirstSuccess(web(BookUrl(row)), MaxRetries, k);
  }
}
