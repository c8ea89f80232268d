/**
 * The optional title/author verification stage (`verify_book_info` and the
 * fail-open return of `verify_title_and_author`): each row's language-model
 * reply either confirms the row, suggests a replacement title and author, or
 * fails to parse, in which case the row is kept and the error recorded.
 */
module Verify {
  import opened Wrappers
  import opened Strings

  /** A CSV row: its first two fields are the title and the author. */
  type Row = seq<string>

  /** One line of the comparison report: old and new title, old and new author, and the error text if any. */
  datatype Comparison = Comparison(
    oldTitle: string, newTitle: string,
    oldAuthor: string, newAuthor: string,
    error: Option<string>)

  /** What the chat-completion call produced: the API raised, or it returned a message whose content may be null. */
  datatype LlmOutcome = ApiError | Completion(content: Option<string>)

  /** Why a non-"correct" reply was rejected: the exception the parser raised. */
  datatype ParseError = UnexpectedFormat | IndexOutOfRange

  /** `str(e)` for the two exceptions the parser can raise. */
  function ErrorText(e: ParseError): string {
    match e
    case UnexpectedFormat => "Unexpected response format"
    case IndexOutOfRange => "list index out of range"
  }

  const AuthorMarker: string := ", author:"
  const TitleMarker: string := "title:"

  /** The header line of the comparison report. */
  const ComparisonHeaders: seq<string> := ["Old Title", "New Title", "Old Author", "New Author", "Error"]

  /**
   * The string `verify_title_and_author` returns: the message content, except
   * that an API failure, a null content or an empty content all become "correct".
   */
  function ReplyText(o: LlmOutcome): (reply: string)
    ensures o.ApiError? ==> reply == "correct"
    ensures o.Completion? && (o.content.None? || o.content.value == "") ==> reply == "correct"
    ensures o.Completion? && o.content.Some? && o.content.value != "" ==> reply == o.content.value
  {
    match o
    case ApiError => "correct"
    case Completion(None) => "correct"
    case Completion(Some(s)) => if s == "" then "correct" else s
  }

  /**
   * The reply confirms the row: lower-cased and stripped of whitespace it is
   * "correct". So it has at least seven characters, and a reply without
   * whitespace confirms exactly when it is "correct" in some mix of cases.
   */
  predicate IsCorrect(reply: string)
    ensures IsCorrect(reply) ==> |reply| >= 7
    ensures (forall i :: 0 <= i < |reply| ==> reply[i] !in Whitespace) ==>
              (IsCorrect(reply) <==> Lower(reply) == "correct")
  {
    LowerSpec(reply);
    Strip(Lower(reply)) == "correct"
  }

  /** A field as the parser leaves it: no leading or trailing single quote. */
  predicate Unquoted(s: string) {
    |s| > 0 ==> s[0] != '\'' && s[|s| - 1] != '\''
  }

  /** The reply with newlines turned into spaces, cut at every ", author:". */
  function AuthorParts(reply: string): seq<string> {
    Split(ReplaceChar(reply, '\n', ' '), AuthorMarker)
  }

  /**
   * The suggestion parser of `verify_book_info`: exactly two parts around
   * ", author:" are required (else ValueError); the title is the text after
   * the first "title:" of the first part (else IndexError), and both fields
   * are whitespace-stripped and then quote-stripped.
   */
  function ParseSuggestion(reply: string): (r: Result<(string, string), ParseError>)
    ensures r.Success? ==> Unquoted(r.value.0) && Unquoted(r.value.1)
    ensures r.Success? ==> |AuthorParts(reply)| == 2
    ensures r == Failure(UnexpectedFormat) <==> |AuthorParts(reply)| != 2
  {
    var parts := AuthorParts(reply);
    if |parts| != 2 then Failure(UnexpectedFormat)
    else
      var titleParts := Split(parts[0], TitleMarker);
      if |titleParts| < 2 then Failure(IndexOutOfRange)
      else
        StripSetEnds(Strip(titleParts[1]), {'\''});
        StripSetEnds(Strip(parts[1]), {'\''});
        Success((StripQuotes(Strip(titleParts[1])), StripQuotes(Strip(parts[1]))))
  }

  /** How a reply is read: it confirms the row, suggests a title and author, or is rejected with an error. */
  datatype Verdict = Confirmed | Suggested(title: string, author: string) | Rejected(error: ParseError)

  /**
   * How the `verify_book_info` loop reads one reply: "correct" (any case,
   * surrounding whitespace ignored) confirms; otherwise the parser either
   * yields a title and author or the exception it raised.
   */
  function Judge(reply: string): (v: Verdict)
    ensures v.Confirmed? <==> IsCorrect(reply)
    ensures v.Suggested? ==> ParseSuggestion(reply) == Success((v.title, v.author))
    ensures v.Rejected? ==> ParseSuggestion(reply) == Failure(v.error)
    ensures !IsCorrect(reply) && ParseSuggestion(reply).Success? ==> v.Suggested?
  {
    if IsCorrect(reply) then Confirmed
    else
      match ParseSuggestion(reply)
      case Success((t, a)) => Suggested(t, a)
      case Failure(e) => Rejected(e)
  }

  /** What happened to one row, and the comparison entry it added, if any. */
  datatype RowUpdate = RowUpdate(row: Row, entry: Option<Comparison>)

  /**
   * Acting on a verdict: a confirmation keeps the row and adds no entry; a
   * suggestion replaces the first two fields and records old and new values
   * with no error; a rejection keeps the row and records the unchanged values
   * with the error text.
   */
  function Apply(row: Row, v: Verdict): (u: RowUpdate)
    requires |row| >= 2
    ensures |u.row| == |row| && u.row[2..] == row[2..]
    ensures u.entry.None? <==> v.Confirmed?
    ensures u.entry.Some? ==> u.entry.value.oldTitle == row[0] && u.entry.value.oldAuthor == row[1]
    ensures u.entry.Some? ==> u.row[0] == u.entry.value.newTitle && u.row[1] == u.entry.value.newAuthor
    ensures v.Suggested? ==> u.row[0] == v.title && u.row[1] == v.author && u.entry.value.error.None?
    ensures v.Rejected? ==> u.row == row && u.entry.value.error == Some(ErrorText(v.error))
    ensures v.Confirmed? ==> u.row == row
  {
    match v
    case Confirmed => RowUpdate(row, None)
    case Suggested(t, a) =>
      var updated := [t, a] + row[2..];
      assert updated[2..] == row[2..];
      RowUpdate(updated, Some(Comparison(row[0], t, row[1], a, None)))
    case Rejected(e) =>
      RowUpdate(row, Some(Comparison(row[0], row[0], row[1], row[1], Some(ErrorText(e)))))
  }

  /**
   * One iteration of the `verify_book_info` loop: the row's reply is read and
   * acted on. The row keeps its length and every field after the author; an
   * entry is added exactly when the reply is not "correct" (which a failed or
   * empty call also yields), and without one the row is unchanged.
   */
  function VerifyRow(row: Row, o: LlmOutcome): (u: RowUpdate)
    requires |row| >= 2
    ensures |u.row| == |row| && u.row[2..] == row[2..]
    ensures u.entry.None? <==> IsCorrect(ReplyText(o))
    ensures u.entry.None? ==> u.row == row
  {
    Apply(row, Judge(ReplyText(o)))
  }

  /**
   * One row through the loop: an entry holds the row's old title and author,
   * and the row changes only by a parsed suggestion, whose entry records no
   * error.
   */
  lemma VerifyRowSpec(row: Row, o: LlmOutcome)
    requires |row| >= 2
    ensures VerifyRow(row, o).entry.Some? ==>
              VerifyRow(row, o).entry.value.oldTitle == row[0] && VerifyRow(row, o).entry.value.oldAuthor == row[1]
    ensures VerifyRow(row, o).row != row ==>
              ParseSuggestion(ReplyText(o)).Success? && VerifyRow(row, o).entry.value.error.None?
  {
  }

  /**
   * The branches of `VerifyRow` for a reply that is not "correct": a parsed
   * suggestion replaces the title and author and records no error; a parse
   * failure keeps the row and records the exception's text.
   */
  lemma VerifyRowBranches(row: Row, o: LlmOutcome)
    requires |row| >= 2
    requires !IsCorrect(ReplyText(o))
    ensures match ParseSuggestion(ReplyText(o))
            case Success((t, a)) =>
              VerifyRow(row, o) == RowUpdate([t, a] + row[2..], Some(Comparison(row[0], t, row[1], a, None)))
            case Failure(e) =>
              VerifyRow(row, o) == RowUpdate(row, Some(Comparison(row[0], row[0], row[1], row[1], Some(ErrorText(e)))))
  {
  }

  /** Every row of a batch has a title and an author. */
  predicate WellFormed(rows: seq<Row>) {
    forall i :: 0 <= i < |rows| ==> |rows[i]| >= 2
  }

  /** The verdict on each row's reply, in row order. */
  function Verdicts(outcomes: seq<LlmOutcome>): (vs: seq<Verdict>)
    ensures |vs| == |outcomes|
    ensures forall i :: 0 <= i < |outcomes| ==> (vs[i].Confirmed? <==> IsCorrect(ReplyText(outcomes[i])))
  {
    seq(|outcomes|, i requires 0 <= i < |outcomes| => Judge(ReplyText(outcomes[i])))
  }

  /** The number of verdicts that are not confirmations. */
  function Flagged(vs: seq<Verdict>): nat {
    if |vs| == 0 then 0
    else Flagged(vs[..|vs| - 1]) + if vs[|vs| - 1].Confirmed? then 0 else 1
  }

  /** The number of replies that are not "correct". */
  function NonCorrectCount(outcomes: seq<LlmOutcome>): nat {
    if |outcomes| == 0 then 0
    else NonCorrectCount(outcomes[..|outcomes| - 1]) + if IsCorrect(ReplyText(outcomes[|outcomes| - 1])) then 0 else 1
  }

  /** A verdict other than a confirmation is given exactly to the replies that are not "correct". */
  lemma {:induction false} FlaggedIsNonCorrect(outcomes: seq<LlmOutcome>)
    ensures Flagged(Verdicts(outcomes)) == NonCorrectCount(outcomes)
    decreases |outcomes|
  {
    if |outcomes| > 0 {
      var n := |outcomes| - 1;
      var vs := Verdicts(outcomes);
      assert vs[..n] == Verdicts(outcomes[..n]);
      FlaggedIsNonCorrect(outcomes[..n]);
    }
  }

  /** The comparison entries the rows add, in row order. */
  function Entries(rows: seq<Row>, vs: seq<Verdict>): (es: seq<Comparison>)
    requires |vs| == |rows| && WellFormed(rows)
    ensures |es| == Flagged(vs)
  {
    if |rows| == 0 then []
    else
      var n := |rows| - 1;
      var prefix := Entries(rows[..n], vs[..n]);
      match Apply(rows[n], vs[n]).entry
      case None => prefix
      case Some(e) => prefix + [e]
  }

  /** The rows after the verification stage, in row order. */
  function UpdatedRows(rows: seq<Row>, vs: seq<Verdict>): (us: seq<Row>)
    requires |vs| == |rows| && WellFormed(rows)
    ensures |us| == |rows|
  {
    if |rows| == 0 then []
    else
      var n := |rows| - 1;
      UpdatedRows(rows[..n], vs[..n]) + [Apply(rows[n], vs[n]).row]
  }

  /** The stage rewrites each row on its own: output row `i` is input row `i` acted on by its own verdict. */
  lemma {:induction false} UpdatedRowsAt(rows: seq<Row>, vs: seq<Verdict>, i: nat)
    requires |vs| == |rows| && WellFormed(rows)
    requires i < |rows|
    ensures UpdatedRows(rows, vs)[i] == Apply(rows[i], vs[i]).row
    decreases |rows|
  {
    var n := |rows| - 1;
    if i < n {
      assert rows[..n][i] == rows[i] && vs[..n][i] == vs[i];
      UpdatedRowsAt(rows[..n], vs[..n], i);
    }
  }

  /** The two files `verify_book_info` writes: the rewritten input and the comparison report. */
  datatype VerifyReport = VerifyReport(
    headers: seq<string>, rows: seq<Row>,
    comparisonHeaders: seq<string>, comparisons: seq<Comparison>)

  /**
   * The `verify_book_info` loop, once each row's reply has been judged: rows
   * are acted on one by one in input order, and each entry is appended as
   * soon as its row is done.
   */
  method ApplyAll(rows: seq<Row>, verdicts: seq<Verdict>) returns (updated: seq<Row>, comparisons: seq<Comparison>)
    requires |verdicts| == |rows| && WellFormed(rows)
    ensures updated == UpdatedRows(rows, verdicts)
    ensures comparisons == Entries(rows, verdicts)
  {
    updated := [];
    comparisons := [];
    var i := 0;
    while i < |rows|
      invariant 0 <= i <= |rows|
      invariant updated == UpdatedRows(rows[..i], verdicts[..i])
      invariant comparisons == Entries(rows[..i], verdicts[..i])
    {
      var u := Apply(rows[i], verdicts[i]);
      assert rows[..i + 1][..i] == rows[..i];
      assert verdicts[..i + 1][..i] == verdicts[..i];
      updated := updated + [u.row];
      if u.entry.Some? {
        comparisons := comparisons + [u.entry.value];
      }
      i := i + 1;
    }
    assert rows[..i] == rows;
    assert verdicts[..i] == verdicts;
  }

  /** Output row `i` of the stage is input row `i` after its own reply. */
  lemma StageRowsAt(rows: seq<Row>, outcomes: seq<LlmOutcome>)
    requires |outcomes| == |rows| && WellFormed(rows)
    ensures forall i :: 0 <= i < |rows| ==> UpdatedRows(rows, Verdicts(outcomes))[i] == VerifyRow(rows[i], outcomes[i]).row
  {
    var vs := Verdicts(outcomes);
    forall i | 0 <= i < |rows| ensures UpdatedRows(rows, vs)[i] == VerifyRow(rows[i], outcomes[i]).row {
      UpdatedRowsAt(rows, vs, i);
    }
  }

  /**
   * The `verify_book_info` stage over all rows, given each row's model outcome:
   * one output row per input row in input order, each the input row after its
   * own reply, headers unchanged, and one comparison entry, in row order, per
   * reply that is not "correct".
   */
  method VerifyBookInfo(headers: seq<string>, rows: seq<Row>, outcomes: seq<LlmOutcome>)
    returns (report: VerifyReport)
    requires |outcomes| == |rows| && WellFormed(rows)
    ensures report.headers == headers && report.comparisonHeaders == ComparisonHeaders
    ensures report.rows == UpdatedRows(rows, Verdicts(outcomes))
    ensures |report.rows| == |rows|
    ensures forall i :: 0 <= i < |rows| ==> report.rows[i] == VerifyRow(rows[i], outcomes[i]).row
    ensures report.comparisons == Entries(rows, Verdicts(outcomes))
    ensures |report.comparisons| == NonCorrectCount(outcomes)
  {
    var updated, comparisons := ApplyAll(rows, Verdicts(outcomes));
    report := VerifyReport(headers, updated, ComparisonHeaders, comparisons);
    StageRowsAt(rows, outcomes);
    FlaggedIsNonCorrect(outcomes);
  }

  /** The reply format the prompt asks for when a pairing is wrong: `title: '<T>', author: '<A>'`. */
  function FormatSuggestion(title: string, author: string): string {
    "title: '" + title + "', author: '" + author + "'"
  }

  /** A failed or empty model call reads as "correct", and so does the bare reply "Correct". */
  lemma FailOpenIsCorrect()
    ensures IsCorrect(ReplyText(ApiError))
    ensures IsCorrect(ReplyText(Completion(None)))
    ensures IsCorrect(ReplyText(Completion(Some(""))))
    ensures IsCorrect(ReplyText(Completion(Some("Correct"))))
  {
    assert Lower("correct") == "correct";
    StripSetKeeps("correct", Whitespace);
    assert Lower("Correct") == "correct";
  }

  /**
   * The parser fails exactly when the reply, newlines turned to spaces, does
   * not split into two parts around ", author:", or its first part lacks "title:".
   */
  lemma ParseFailsIff(reply: string)
    ensures ParseSuggestion(reply).Failure? <==>
              |AuthorParts(reply)| != 2 || !Contains(AuthorParts(reply)[0], TitleMarker)
  {
    if |AuthorParts(reply)| == 2 {
      SplitSingleIff(AuthorParts(reply)[0], TitleMarker);
    }
  }

  /** The quoted title part `title: '<T>'` of the requested format. */
  function QuotedTitle(title: string): string {
    "title: '" + title + "'"
  }

  /** A field quoted after a space, ` '<F>'`: the author part of the requested format, and the title after "title:". */
  function SpacedQuote(field: string): string {
    " '" + field + "'"
  }

  /** The requested format is the quoted title, the author marker and the quoted author. */
  lemma FormatShape(title: string, author: string)
    ensures FormatSuggestion(title, author) == QuotedTitle(title) + (AuthorMarker + SpacedQuote(author))
  {
  }

  /** ", author:" occurs in ", author:" followed by a text free of it only at the start. */
  lemma AuthorMarkerOnlyLeading(z: string, m: int)
    requires !Contains(z, AuthorMarker)
    ensures Occurs(AuthorMarker + z, AuthorMarker, m) ==> m == 0
  {
    if 0 < m < |AuthorMarker| {
      NoShiftedOccurrence(AuthorMarker, z, m, 0);
    } else if m >= |AuthorMarker| {
      OccursShift(AuthorMarker, z, AuthorMarker, m - |AuthorMarker|);
    }
  }

  /** "title:" occurs in "title:" followed by a text free of it only at the start. */
  lemma TitleMarkerOnlyLeading(z: string, m: int)
    requires !Contains(z, TitleMarker)
    ensures Occurs(TitleMarker + z, TitleMarker, m) ==> m == 0
  {
    if m == 2 {
      NoShiftedOccurrence(TitleMarker, z, 2, 1);
    } else if 0 < m < |TitleMarker| {
      NoShiftedOccurrence(TitleMarker, z, m, 0);
    } else if m >= |TitleMarker| {
      OccursShift(TitleMarker, z, TitleMarker, m - |TitleMarker|);
    }
  }

  /** A field free of a marker that has no quote in it stays free of it once quoted. */
  lemma QuotedFree(pre: string, field: string, marker: string)
    requires |marker| > 0 && '\'' !in marker && !Contains(pre, marker) && !Contains(field, marker)
    ensures !Contains(pre + ['\''] + field + ['\''], marker)
  {
    NoneAcrossBarrier(field, '\'', "", marker);
    assert field + ['\''] + "" == field + ['\''];
    NoneAcrossBarrier(pre, '\'', field + ['\''], marker);
    assert pre + ['\''] + (field + ['\'']) == pre + ['\''] + field + ['\''];
  }

  /** The requested format splits around ", author:" into the quoted-title part and the quoted-author part. */
  lemma AuthorPartsOfFormatted(title: string, author: string)
    requires '\n' !in title && '\n' !in author
    requires !Contains(title, AuthorMarker) && !Contains(author, AuthorMarker)
    ensures AuthorParts(FormatSuggestion(title, author)) == [QuotedTitle(title), SpacedQuote(author)]
  {
    var q := '\'';
    var reply := FormatSuggestion(title, author);
    var head, tail := QuotedTitle(title), SpacedQuote(author);
    assert ReplaceChar(reply, '\n', ' ') == reply by {
      assert '\n' !in reply;
    }
    FormatShape(title, author);
    var x := "title: " + [q] + title;
    assert head == x + [q];
    assert reply == x + [q] + (AuthorMarker + tail);
    assert tail == " " + [q] + author + [q];
    assert !Contains(x, AuthorMarker) by {
      MissingCharNotContained("title: ", AuthorMarker, ',');
      NoneAcrossBarrier("title: ", q, title, AuthorMarker);
    }
    assert !Contains(tail, AuthorMarker) by {
      MissingCharNotContained(" ", AuthorMarker, ',');
      QuotedFree(" ", author, AuthorMarker);
    }
    var k := |head|;
    assert Occurs(reply, AuthorMarker, k) by {
      OccursShift(head, AuthorMarker + tail, AuthorMarker, 0);
      assert (AuthorMarker + tail)[0..|AuthorMarker|] == AuthorMarker;
    }
    forall j | Occurs(reply, AuthorMarker, j) ensures j == k {
      OccursAcrossBarrier(x, q, AuthorMarker + tail, AuthorMarker, j);
      AuthorMarkerOnlyLeading(tail, j - k);
    }
    SplitExactlyOnce(reply, AuthorMarker, k);
    assert reply[..k] == head;
    assert reply[k + |AuthorMarker|..] == tail;
  }

  /** The quoted-title part splits around "title:" into an empty piece and the quoted title. */
  lemma TitlePartsOfQuoted(title: string)
    requires !Contains(title, TitleMarker)
    ensures Split(QuotedTitle(title), TitleMarker) == ["", SpacedQuote(title)]
  {
    var q := '\'';
    var s := QuotedTitle(title);
    var rest := SpacedQuote(title);
    assert s == TitleMarker + rest;
    assert rest == " " + [q] + title + [q];
    assert !Contains(rest, TitleMarker) by {
      MissingCharNotContained(" ", TitleMarker, 't');
      QuotedFree(" ", title, TitleMarker);
    }
    assert Occurs(s, TitleMarker, 0) by {
      assert s[0..|TitleMarker|] == TitleMarker;
    }
    forall j | Occurs(s, TitleMarker, j) ensures j == 0 {
      TitleMarkerOnlyLeading(rest, j);
    }
    SplitExactlyOnce(s, TitleMarker, 0);
    assert s[..0] == "";
    assert s[|TitleMarker|..] == rest;
  }

  /** Whitespace-stripping and then quote-stripping ` '<F>'` gives back `F`. */
  lemma StripQuotedField(field: string)
    requires Unquoted(field)
    ensures StripQuotes(Strip(SpacedQuote(field))) == field
  {
    var q := '\'';
    assert SpacedQuote(field) == [' '] + ([q] + field + [q]);
    StripSetDropsLead(' ', [q] + field + [q], Whitespace);
    StripSetEnclosed(q, field, {q});
  }

  /**
   * A reply in the requested format parses back to its title and author, as
   * long as neither field holds a newline or a marker and neither begins or
   * ends with a quote.
   */
  lemma ParseFormatted(title: string, author: string)
    requires '\n' !in title && '\n' !in author
    requires !Contains(title, AuthorMarker) && !Contains(author, AuthorMarker)
    requires !Contains(title, TitleMarker)
    requires Unquoted(title) && Unquoted(author)
    ensures ParseSuggestion(FormatSuggestion(title, author)) == Success((title, author))
  {
    AuthorPartsOfFormatted(title, author);
    TitlePartsOfQuoted(title);
    StripQuotedField(title);
    StripQuotedField(author);
  }

  /** A reply in the requested format is never read as "correct". */
  lemma FormattedIsNotCorrect(title: string, author: string)
    ensures !IsCorrect(FormatSuggestion(title, author))
  {
    var reply := FormatSuggestion(title, author);
    var lowered := Lower(reply);
    assert reply[0] == 't' && reply[|reply| - 1] == '\'';
    assert lowered[0] == 't' && lowered[|lowered| - 1] == '\'';
    StripSetKeeps(lowered, Whitespace);
    assert |Strip(lowered)| == |reply| > 7;
  }

  /**
   * A well-formed suggestion rewrites the row's title and author, keeps the
   * remaining fields, and records the old and new values with no error.
   */
  lemma SuggestionApplied(row: Row, title: string, author: string)
    requires |row| >= 2
    requires '\n' !in title && '\n' !in author
    requires !Contains(title, AuthorMarker) && !Contains(author, AuthorMarker)
    requires !Contains(title, TitleMarker)
    requires Unquoted(title) && Unquoted(author)
    ensures VerifyRow(row, Completion(Some(FormatSuggestion(title, author)))) ==
              RowUpdate([title, author] + row[2..], Some(Comparison(row[0], title, row[1], author, None)))
  {
    ParseFormatted(title, author);
    FormattedIsNotCorrect(title, author);
  }

  /** The reply text of the example is the requested format filled with "Dune" and "Frank Herbert". */
  lemma DuneText(title: string, author: string)
    requires title == "Dune" && author == "Frank Herbert"
    ensures FormatSuggestion(title, author) == "title: 'Dune', author: 'Frank Herbert'"
  {
    assert "title: '" + title == "title: 'Dune";
    assert "title: 'Dune" + "', author: '" == "title: 'Dune', author: '";
    assert "title: 'Dune', author: '" + author == "title: 'Dune', author: 'Frank Herbert";
    assert "title: 'Dune', author: 'Frank Herbert" + "'" == "title: 'Dune', author: 'Frank Herbert'";
  }

  /** A reply in the requested format, whose fields hold no marker, newline or edge quote, suggests exactly those fields. */
  lemma JudgeFormatted(title: string, author: string)
    requires '\n' !in title && '\n' !in author
    requires !Contains(title, AuthorMarker) && !Contains(author, AuthorMarker)
    requires !Contains(title, TitleMarker)
    requires Unquoted(title) && Unquoted(author)
    ensures Judge(FormatSuggestion(title, author)) == Suggested(title, author)
  {
    ParseFormatted(title, author);
    FormattedIsNotCorrect(title, author);
  }

  /** The reply "title: 'Dune', author: 'Frank Herbert'" suggests the title "Dune" by "Frank Herbert". */
  lemma DuneExample(reply: string, title: string, author: string)
    requires reply == "title: 'Dune', author: 'Frank Herbert'"
    requires title == "Dune" && author == "Frank Herbert"
    ensures Judge(reply) == Suggested(title, author)
  {
    DuneText(title, author);
    MissingCharNotContained(title, AuthorMarker, ',');
    MissingCharNotContained(author, AuthorMarker, ',');
    MissingCharNotContained(title, TitleMarker, 't');
    JudgeFormatted(title, author);
  }
}
