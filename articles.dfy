/**
 * `display_filtered_feed`: the entries of one RSS or Atom feed, filtered by a
 * keyword in the title and by publication date, then shown page by page.
 *
 * The loop keeps `entry_date` from one entry to the next: an entry whose
 * publication string holds no timestamp is compared with the date of the
 * last entry that had one, and with no such entry the comparison raises.
 */
module Articles {
  import opened Basics
  import opened Text
  import opened DateTimes
  import opened Paging

  /** A feed entry as the feed parser hands it over: any attribute may be missing. */
  datatype RawArticle = RawArticle(
    title: Option<string>, description: Option<string>, author: Option<string>,
    published: Option<string>, link: Option<string>)

  /** The dictionary appended to `entries` for an entry that passes the filter. */
  datatype ArticleRecord = ArticleRecord(title: string, description: string, author: string, date: string, link: string)

  /** The author shown for an entry without one (with its trailing space). */
  const UnknownAuthor: string := "unknown author "

  /** Reading `entry.title`, `.description`, `.published` and `.link` raises unless all four are there. */
  predicate HasFields(e: RawArticle)
  {
    e.title.Some? && e.description.Some? && e.published.Some? && e.link.Some?
  }

  /** `not keyword or keyword.lower() in title.lower()`; no keyword is the empty keyword. */
  function TitleMatches(keyword: string, title: string): (r: bool)
    ensures r <==> keyword == "" || exists i :: OccursAt(Lower(title), Lower(keyword), i)
  {
    keyword == "" || KeywordIn(keyword, title)
  }

  /** A string that is exactly one timestamp, as `date_match.group(0)` returns it. */
  predicate IsStampDate(date: string)
  {
    |date| == StampLength && StampAt(date, 0)
  }

  /** The date an entry shows: the first timestamp in its publication string, or the whole string. */
  function DisplayedDate(published: string): (date: string)
    ensures FindStamp(published, 0).Some? ==>
      var i := FindStamp(published, 0).value;
      date == published[i..i + StampLength] && IsStampDate(date)
    ensures FindStamp(published, 0).None? ==> date == published
  {
    match FindStamp(published, 0)
    case None => published
    case Some(i) =>
      StampWindow(published, i);
      published[i..i + StampLength]
  }

  /** The record an entry with all its fields becomes. */
  function Record(e: RawArticle): (r: ArticleRecord)
    requires HasFields(e)
    ensures r.title == e.title.value && r.description == e.description.value && r.link == e.link.value
    ensures r.author == if e.author.Some? then e.author.value else "unknown author "
    ensures FindStamp(e.published.value, 0).Some? ==>
      var i := FindStamp(e.published.value, 0).value;
      r.date == e.published.value[i..i + StampLength]
    ensures FindStamp(e.published.value, 0).None? ==> r.date == e.published.value
  {
    ArticleRecord(e.title.value, e.description.value,
                  if e.author.Some? then e.author.value else UnknownAuthor,
                  DisplayedDate(e.published.value), e.link.value)
  }

  /** An entry as a record of the filter's output, or nothing when reading it raises. */
  function Normalize(e: RawArticle): Option<ArticleRecord>
  {
    if HasFields(e) then Some(Record(e)) else None
  }

  /** The loop's state between entries: `entry_date` (None while unbound) and `entries`. */
  datatype ArticleScan = ArticleScan(entryDate: Option<DateTime>, kept: seq<ArticleRecord>)

  /**
   * `entry_date` after an entry with publication string `published`: its
   * first timestamp parsed by `strptime` (which raises on a timestamp it
   * rejects), or, with no timestamp, the date carried over unchanged.
   */
  function NextEntryDate(carried: Option<DateTime>, published: string): (r: Eval<Option<DateTime>>)
    ensures FindStamp(published, 0).None? ==> r == Done(carried)
    ensures FindStamp(published, 0).Some? ==>
      (r.Raised? <==> ParseStamp(DisplayedDate(published)).None?) &&
      (r.Done? ==> r.value == ParseStamp(DisplayedDate(published)))
  {
    match FindStamp(published, 0)
    case None => Done(carried)
    case Some(i) =>
      StampWindow(published, i);
      match ParseStamp(published[i..i + StampLength])
      case None => Raised
      case Some(d) => Done(Some(d))
  }

  /**
   * One pass of the loop body. A missing attribute raises; a timestamp
   * becomes `entry_date`; a title that matches is kept when the date test
   * passes.
   */
  function ArticleStep(s: ArticleScan, e: RawArticle, keyword: string,
                       start: Option<DateTime>, end: Option<DateTime>): (r: Eval<ArticleScan>)
    ensures r.Done? ==> HasFields(e)
  {
    if !HasFields(e) then Raised
    else
      match NextEntryDate(s.entryDate, e.published.value)
      case Raised => Raised
      case Done(entryDate) =>
        if !TitleMatches(keyword, e.title.value) then Done(ArticleScan(entryDate, s.kept))
        else
          match DateTest(entryDate, start, end)
          case Raised => Raised
          case Done(keep) => Done(ArticleScan(entryDate, if keep then s.kept + [Record(e)] else s.kept))
  }

  /** The loop over the first `|es|` entries. */
  function ScanArticles(es: seq<RawArticle>, keyword: string,
                        start: Option<DateTime>, end: Option<DateTime>): Eval<ArticleScan>
    decreases |es|
  {
    if es == [] then Done(ArticleScan(None, []))
    else
      match ScanArticles(es[..|es| - 1], keyword, start, end)
      case Raised => Raised
      case Done(s) => ArticleStep(s, es[|es| - 1], keyword, start, end)
  }

  /** The list `entries` the loop builds, or Raised when the loop raises. */
  function FilteredArticles(es: seq<RawArticle>, keyword: string,
                            start: Option<DateTime>, end: Option<DateTime>): (r: Eval<seq<ArticleRecord>>)
    ensures es == [] ==> r == Done([])
  {
    match ScanArticles(es, keyword, start, end)
    case Raised => Raised
    case Done(s) => Done(s.kept)
  }

  lemma ScanSnoc(es: seq<RawArticle>, i: nat, keyword: string, start: Option<DateTime>, end: Option<DateTime>)
    requires i < |es|
    ensures ScanArticles(es[..i + 1], keyword, start, end) ==
      match ScanArticles(es[..i], keyword, start, end)
      case Raised => Raised
      case Done(s) => ArticleStep(s, es[i], keyword, start, end)
  {
    assert es[..i + 1][..i] == es[..i];
  }

  /** Once the loop has raised, the rest of the entries change nothing. */
  lemma {:induction false} RaisedPersists(es: seq<RawArticle>, i: nat, keyword: string,
                                          start: Option<DateTime>, end: Option<DateTime>)
    requires i <= |es| && ScanArticles(es[..i], keyword, start, end).Raised?
    ensures FilteredArticles(es, keyword, start, end).Raised?
    decreases |es| - i
  {
    if i == |es| {
      assert es[..i] == es;
    } else {
      ScanSnoc(es, i, keyword, start, end);
      RaisedPersists(es, i + 1, keyword, start, end);
    }
  }

  /**
   * The `date_match` block: search the publication string for a timestamp;
   * when there is one, it becomes the date shown and, parsed, `entry_date`.
   */
  method ReadEntryDate(entryDate: Option<DateTime>, published: string)
    returns (date: string, next: Eval<Option<DateTime>>)
    ensures date == DisplayedDate(published)
    ensures next == NextEntryDate(entryDate, published)
  {
    date := published;
    next := Done(entryDate);
    var dateMatch := FindStamp(published, 0);
    if dateMatch.Some? {
      StampWindow(published, dateMatch.value);
      date := published[dateMatch.value..dateMatch.value + StampLength];
      var parsed := ParseStamp(date);
      if parsed.None? {
        return date, Raised;
      }
      next := Done(parsed);
    }
  }

  /** The two nested date tests, in the source's order; an unbound `entry_date` that is compared raises. */
  method CheckDates(entryDate: Option<DateTime>, start: Option<DateTime>, end: Option<DateTime>)
    returns (r: Eval<bool>)
    ensures r == DateTest(entryDate, start, end)
  {
    if start.Some? && entryDate.None? {
      return Raised;
    }
    if start.None? || NotAfter(start.value, entryDate.value) {
      if end.Some? && entryDate.None? {
        return Raised;
      }
      if end.None? || NotAfter(entryDate.value, end.value) {
        return Done(true);
      }
    }
    r := Done(false);
  }

  /**
   * The body of the loop of `display_filtered_feed` for one entry, from
   * `entry_date` and `entries` as the earlier entries left them; an
   * exception gives Raised.
   */
  method FilterEntry(entryDate: Option<DateTime>, entries: seq<ArticleRecord>, entry: RawArticle,
                     keyword: string, start: Option<DateTime>, end: Option<DateTime>)
    returns (r: Eval<ArticleScan>)
    ensures r == ArticleStep(ArticleScan(entryDate, entries), entry, keyword, start, end)
  {
    if !HasFields(entry) {
      return Raised;
    }
    var title, description, published, link := entry.title.value, entry.description.value,
                                               entry.published.value, entry.link.value;
    var author := if entry.author.Some? then entry.author.value else UnknownAuthor;
    var date, next := ReadEntryDate(entryDate, published);
    if next.Raised? {
      return Raised;
    }
    var newEntries := entries;
    if keyword == "" || KeywordIn(keyword, title) {
      var inRange := CheckDates(next.value, start, end);
      if inRange.Raised? {
        return Raised;
      }
      if inRange.value {
        newEntries := newEntries + [ArticleRecord(title, description, author, date, link)];
      }
    }
    r := Done(ArticleScan(next.value, newEntries));
  }

  /** The loop of `display_filtered_feed` over the feed's entries; an exception ends it with Raised. */
  method FilterFeed(es: seq<RawArticle>, keyword: string, start: Option<DateTime>, end: Option<DateTime>)
    returns (r: Eval<seq<ArticleRecord>>)
    ensures r == FilteredArticles(es, keyword, start, end)
  {
    var entries: seq<ArticleRecord> := [];
    var entryDate: Option<DateTime> := None;
    for i := 0 to |es|
      invariant ScanArticles(es[..i], keyword, start, end) == Done(ArticleScan(entryDate, entries))
    {
      ScanSnoc(es, i, keyword, start, end);
      var step := FilterEntry(entryDate, entries, es[i], keyword, start, end);
      if step.Raised? {
        RaisedPersists(es, i + 1, keyword, start, end);
        return Raised;
      }
      entryDate, entries := step.value.entryDate, step.value.kept;
    }
    assert es[..|es|] == es;
    r := Done(entries);
  }

  /**
   * `display_filtered_feed` on a feed's entries: filter, then page through
   * the result, reading the answers to the prompts from `responses`.
   */
  method DisplayFilteredFeed(es: seq<RawArticle>, keyword: string, start: Option<DateTime>, end: Option<DateTime>,
                             pageSize: nat, responses: seq<string>)
    returns (run: Run<ArticleRecord>)
    ensures run == ShownRun(FilteredArticles(es, keyword, start, end), pageSize, responses)
  {
    var filtered := FilterFeed(es, keyword, start, end);
    if filtered.Raised? || pageSize == 0 {
      return Run([], 0, true);
    }
    run := Paginate(filtered.value, pageSize, responses);
  }

  // ------------------------------------------------------------ properties

  /**
   * What every kept record satisfies: its title holds the keyword, and its
   * date is either a timestamp that parses to a datetime within the bounds,
   * or a publication string with no timestamp in it.
   */
  predicate Qualifies(r: ArticleRecord, keyword: string, start: Option<DateTime>, end: Option<DateTime>)
  {
    TitleMatches(keyword, r.title) &&
    if IsStampDate(r.date) then ParseStamp(r.date).Some? && WithinBounds(ParseStamp(r.date).value, start, end)
    else FindStamp(r.date, 0).None?
  }

  /** One pass of the loop keeps the list as it was, or appends the entry's record, which qualifies. */
  lemma StepKeepsQualified(s: ArticleScan, e: RawArticle, keyword: string,
                           start: Option<DateTime>, end: Option<DateTime>)
    requires ArticleStep(s, e, keyword, start, end).Done?
    ensures var kept := ArticleStep(s, e, keyword, start, end).value.kept;
      kept == s.kept ||
      (HasFields(e) && kept == s.kept + [Record(e)] && Qualifies(Record(e), keyword, start, end))
  {
    var published := e.published.value;
    if FindStamp(published, 0).None? {
      assert !StampAt(published, 0);
    }
  }

  lemma {:induction false} ScanKeepsQualified(es: seq<RawArticle>, keyword: string,
                                              start: Option<DateTime>, end: Option<DateTime>)
    ensures match ScanArticles(es, keyword, start, end)
      case Raised => true
      case Done(s) => IsSubseqVia(s.kept, es, Normalize) &&
                      forall i :: 0 <= i < |s.kept| ==> Qualifies(s.kept[i], keyword, start, end)
    decreases |es|
  {
    if es != [] {
      var prefix, e := es[..|es| - 1], es[|es| - 1];
      ScanKeepsQualified(prefix, keyword, start, end);
      if ScanArticles(es, keyword, start, end).Done? {
        var s := ScanArticles(prefix, keyword, start, end).value;
        var step := ArticleStep(s, e, keyword, start, end);
        assert ScanArticles(es, keyword, start, end) == step;
        StepKeepsQualified(s, e, keyword, start, end);
        SubseqSnoc(s.kept, prefix, Normalize, e, step.value.kept != s.kept);
        assert es == prefix + [e];
      }
    }
  }

  /**
   * The filter keeps entries in their feed order, each turned into its
   * record, and every record it keeps qualifies: the keyword is in its title
   * and a timestamp in its date lies within the bounds.
   */
  lemma FilteredArticlesQualify(es: seq<RawArticle>, keyword: string,
                                start: Option<DateTime>, end: Option<DateTime>, kept: seq<ArticleRecord>)
    requires FilteredArticles(es, keyword, start, end) == Done(kept)
    ensures IsSubseqVia(kept, es, Normalize)
    ensures forall i :: 0 <= i < |kept| ==> Qualifies(kept[i], keyword, start, end)
  {
    ScanKeepsQualified(es, keyword, start, end);
  }

  /**
   * Only the title is searched: changing an entry's description or author
   * changes neither whether the loop raises, nor `entry_date`, nor whether
   * the entry is kept.
   */
  lemma OnlyTitleIsSearched(s: ArticleScan, e: RawArticle, description: string, author: Option<string>,
                            keyword: string, start: Option<DateTime>, end: Option<DateTime>)
    requires e.description.Some?
    ensures var e' := e.(description := Some(description), author := author);
      (ArticleStep(s, e', keyword, start, end).Raised? <==> ArticleStep(s, e, keyword, start, end).Raised?) &&
      (ArticleStep(s, e, keyword, start, end).Done? ==>
        ArticleStep(s, e', keyword, start, end).value.entryDate == ArticleStep(s, e, keyword, start, end).value.entryDate &&
        |ArticleStep(s, e', keyword, start, end).value.kept| == |ArticleStep(s, e, keyword, start, end).value.kept|)
  {
  }

  /** An entry whose attributes are all there and that carries no timestamp. */
  predicate Unstamped(e: RawArticle)
  {
    HasFields(e) && FindStamp(e.published.value, 0).None?
  }

  lemma {:induction false} UnstampedLeavesDateUnbound(es: seq<RawArticle>, k: nat, keyword: string,
                                                      start: Option<DateTime>, end: Option<DateTime>)
    requires k <= |es| && forall j :: 0 <= j < k ==> Unstamped(es[j])
    ensures ScanArticles(es[..k], keyword, start, end).Done? ==>
            ScanArticles(es[..k], keyword, start, end).value.entryDate.None?
    decreases k
  {
    if k > 0 {
      UnstampedLeavesDateUnbound(es, k - 1, keyword, start, end);
      ScanSnoc(es, k - 1, keyword, start, end);
    }
  }

  /**
   * With a date bound set, the first entry whose title matches raises when
   * no entry up to it carried a timestamp: `entry_date` is compared before
   * it was ever assigned.
   */
  lemma MatchBeforeAnyTimestampRaises(es: seq<RawArticle>, i: nat, keyword: string,
                                      start: Option<DateTime>, end: Option<DateTime>)
    requires i < |es| && (start.Some? || end.Some?)
    requires forall j :: 0 <= j <= i ==> Unstamped(es[j])
    requires HasFields(es[i]) && TitleMatches(keyword, es[i].title.value)
    ensures FilteredArticles(es, keyword, start, end) == Raised
  {
    UnstampedLeavesDateUnbound(es, i, keyword, start, end);
    ScanSnoc(es, i, keyword, start, end);
    RaisedPersists(es, i + 1, keyword, start, end);
  }

  /** An entry the loop reads without raising when no date is compared: its fields are there and its timestamp, if any, parses. */
  predicate Readable(e: RawArticle)
  {
    HasFields(e) && NextEntryDate(None, e.published.value).Done?
  }

  /**
   * Reference definition of the filter without date bounds: the records of
   * the entries whose title holds the keyword, in feed order.
   */
  function KeywordSelect(es: seq<RawArticle>, keyword: string): seq<ArticleRecord>
    requires forall i :: 0 <= i < |es| ==> HasFields(es[i])
    decreases |es|
  {
    if es == [] then []
    else
      var e := es[|es| - 1];
      assert HasFields(e);
      KeywordSelect(es[..|es| - 1], keyword) + if TitleMatches(keyword, e.title.value) then [Record(e)] else []
  }

  /** Without bounds, one pass of the loop raises exactly on an unreadable entry and otherwise appends a match. */
  lemma StepWithoutBounds(s: ArticleScan, e: RawArticle, keyword: string)
    ensures ArticleStep(s, e, keyword, None, None).Done? <==> Readable(e)
    ensures Readable(e) ==>
      ArticleStep(s, e, keyword, None, None).value.kept ==
      s.kept + (if TitleMatches(keyword, e.title.value) then [Record(e)] else [])
  {
  }

  lemma {:induction false} ScanWithoutBounds(es: seq<RawArticle>, keyword: string)
    ensures (forall i :: 0 <= i < |es| ==> Readable(es[i])) ==>
            ScanArticles(es, keyword, None, None).Done? &&
            ScanArticles(es, keyword, None, None).value.kept == KeywordSelect(es, keyword)
    ensures !(forall i :: 0 <= i < |es| ==> Readable(es[i])) ==> ScanArticles(es, keyword, None, None).Raised?
    decreases |es|
  {
    if es != [] {
      var prefix, e := es[..|es| - 1], es[|es| - 1];
      ScanWithoutBounds(prefix, keyword);
      assert forall i :: 0 <= i < |prefix| ==> prefix[i] == es[i];
      var before := ScanArticles(prefix, keyword, None, None);
      if before.Done? {
        StepWithoutBounds(before.value, e, keyword);
      }
    }
  }

  /**
   * Without date bounds the dates never matter: the filter raises exactly
   * when some entry misses an attribute or carries a timestamp `strptime`
   * rejects, and otherwise keeps every entry whose title holds the keyword.
   */
  lemma FilterWithoutBounds(es: seq<RawArticle>, keyword: string)
    ensures FilteredArticles(es, keyword, None, None) ==
      if forall i :: 0 <= i < |es| ==> Readable(es[i]) then Done(KeywordSelect(es, keyword)) else Raised
  {
    ScanWithoutBounds(es, keyword);
  }

  // ------------------------------------------------- the filter, exactly

  /** An entry whose publication string holds a timestamp. */
  predicate Stamped(e: RawArticle)
  {
    e.published.Some? && FindStamp(e.published.value, 0).Some?
  }

  /** What `strptime` makes of an entry's first timestamp; None where it raises. */
  function StampDate(e: RawArticle): Option<DateTime>
    requires Stamped(e)
  {
    ParseStamp(DisplayedDate(e.published.value))
  }

  /**
   * `entry_date` once the first `k` entries are read: the date of the last
   * of them whose publication string holds a timestamp, None while there is
   * none (the local is unbound).
   */
  function CarriedDate(es: seq<RawArticle>, k: nat): Option<DateTime>
    requires k <= |es|
  {
    if k == 0 then None
    else if Stamped(es[k - 1]) then StampDate(es[k - 1])
    else CarriedDate(es, k - 1)
  }

  /** Unstamped entries leave `entry_date` as it was. */
  lemma {:induction false} CarriedAcrossUnstamped(es: seq<RawArticle>, k: nat, j: nat)
    requires j < k <= |es| && forall l :: j < l < k ==> !Stamped(es[l])
    ensures CarriedDate(es, k) == CarriedDate(es, j + 1)
    decreases k
  {
    if k - 1 > j {
      assert !Stamped(es[k - 1]);
      CarriedAcrossUnstamped(es, k - 1, j);
    }
  }

  /** The carried date is that of the last stamped entry read, however many unstamped ones follow it. */
  lemma CarriedDateIsLastStamp(es: seq<RawArticle>, k: nat, j: nat)
    requires j < k <= |es| && Stamped(es[j])
    requires forall l :: j < l < k ==> !Stamped(es[l])
    ensures CarriedDate(es, k) == StampDate(es[j])
  {
    CarriedAcrossUnstamped(es, k, j);
  }

  /** Before the first stamped entry, `entry_date` is unbound. */
  lemma {:induction false} CarriedDateUnbound(es: seq<RawArticle>, k: nat)
    requires k <= |es| && forall l :: 0 <= l < k ==> !Stamped(es[l])
    ensures CarriedDate(es, k).None?
    decreases k
  {
    if k > 0 {
      CarriedDateUnbound(es, k - 1);
    }
  }

  /**
   * Reference description of when entry `i` raises: it misses an attribute
   * or carries a timestamp `strptime` rejects; or a bound is set, its title
   * matches, and no entry up to it carried a timestamp.
   */
  predicate ArticleRaises(es: seq<RawArticle>, i: nat, keyword: string, start: Option<DateTime>, end: Option<DateTime>)
    requires i < |es|
  {
    !Readable(es[i]) ||
    ((start.Some? || end.Some?) && TitleMatches(keyword, es[i].title.value) && CarriedDate(es, i + 1).None?)
  }

  /** Entry `i` is kept: its title matches and the date it is compared with, if any, is within the bounds. */
  predicate ArticleKept(es: seq<RawArticle>, i: nat, keyword: string, start: Option<DateTime>, end: Option<DateTime>)
    requires i < |es| && Readable(es[i])
  {
    TitleMatches(keyword, es[i].title.value) &&
    (CarriedDate(es, i + 1).None? || WithinBounds(CarriedDate(es, i + 1).value, start, end))
  }

  /** Reference definition of the filter's output: the records of the kept entries among the first `k`, in order. */
  function ArticleSelection(es: seq<RawArticle>, k: nat, keyword: string, start: Option<DateTime>, end: Option<DateTime>)
    : seq<ArticleRecord>
    requires k <= |es| && forall i :: 0 <= i < k ==> !ArticleRaises(es, i, keyword, start, end)
    decreases k
  {
    if k == 0 then []
    else
      assert !ArticleRaises(es, k - 1, keyword, start, end);
      ArticleSelection(es, k - 1, keyword, start, end) +
      if ArticleKept(es, k - 1, keyword, start, end) then [Record(es[k - 1])] else []
  }

  /** One pass of the loop, from the `entry_date` the earlier entries left, agrees with the reference description. */
  lemma StepMeaning(es: seq<RawArticle>, k: nat, s: ArticleScan, keyword: string,
                    start: Option<DateTime>, end: Option<DateTime>)
    requires 0 < k <= |es| && s.entryDate == CarriedDate(es, k - 1)
    ensures ArticleStep(s, es[k - 1], keyword, start, end).Raised? <==> ArticleRaises(es, k - 1, keyword, start, end)
    ensures !ArticleRaises(es, k - 1, keyword, start, end) ==>
      ArticleStep(s, es[k - 1], keyword, start, end) ==
      Done(ArticleScan(CarriedDate(es, k),
                       s.kept + if ArticleKept(es, k - 1, keyword, start, end) then [Record(es[k - 1])] else []))
  {
    var e := es[k - 1];
    if HasFields(e) {
      var next := NextEntryDate(s.entryDate, e.published.value);
      assert next.Done? <==> Readable(e);
      if next.Done? {
        assert next.value == CarriedDate(es, k);
        if TitleMatches(keyword, e.title.value) {
          var test := DateTest(next.value, start, end);
          if test.Done? {
            assert test.value <==> ArticleKept(es, k - 1, keyword, start, end);
            assert ArticleStep(s, e, keyword, start, end) ==
              Done(ArticleScan(next.value, if test.value then s.kept + [Record(e)] else s.kept));
            assert s.kept + [] == s.kept;
          }
        }
      }
    }
  }

  lemma {:induction false} ScanMeaning(es: seq<RawArticle>, k: nat, keyword: string,
                                       start: Option<DateTime>, end: Option<DateTime>)
    requires k <= |es|
    ensures (forall i :: 0 <= i < k ==> !ArticleRaises(es, i, keyword, start, end)) ==>
      ScanArticles(es[..k], keyword, start, end) ==
      Done(ArticleScan(CarriedDate(es, k), ArticleSelection(es, k, keyword, start, end)))
    ensures (exists i :: 0 <= i < k && ArticleRaises(es, i, keyword, start, end)) ==>
      ScanArticles(es[..k], keyword, start, end).Raised?
    decreases k
  {
    if k == 0 {
      assert es[..0] == [];
    } else {
      ScanMeaning(es, k - 1, keyword, start, end);
      ScanSnoc(es, k - 1, keyword, start, end);
      var before := ScanArticles(es[..k - 1], keyword, start, end);
      if before.Done? {
        StepMeaning(es, k, before.value, keyword, start, end);
      }
      if exists i :: 0 <= i < k && ArticleRaises(es, i, keyword, start, end) {
        var i :| 0 <= i < k && ArticleRaises(es, i, keyword, start, end);
        if i < k - 1 {
          assert before.Raised?;
        }
      }
    }
  }

  /**
   * The filter, bounds or not, exactly: it raises when some entry raises as
   * `ArticleRaises` says, and otherwise keeps precisely the entries whose
   * title matches and whose carried date is within the bounds, in feed
   * order.
   */
  lemma FilterMeaning(es: seq<RawArticle>, keyword: string, start: Option<DateTime>, end: Option<DateTime>)
    ensures FilteredArticles(es, keyword, start, end) ==
      if exists i :: 0 <= i < |es| && ArticleRaises(es, i, keyword, start, end) then Raised
      else Done(ArticleSelection(es, |es|, keyword, start, end))
  {
    ScanMeaning(es, |es|, keyword, start, end);
    assert es[..|es|] == es;
  }

  /**
   * An unstamped entry is judged by the timestamp of the entry before it:
   * after an entry stamped `d` whose title does not match, a matching entry
   * with no timestamp is kept exactly when `d` is not before the start bound.
   */
  lemma StaleDateDecides(a: RawArticle, b: RawArticle, keyword: string, start: DateTime, d: DateTime)
    requires Readable(a) && Stamped(a) && StampDate(a) == Some(d) && !TitleMatches(keyword, a.title.value)
    requires Unstamped(b) && TitleMatches(keyword, b.title.value)
    ensures FilteredArticles([a, b], keyword, Some(start), None) ==
      Done(if NotAfter(start, d) then [Record(b)] else [])
  {
    var es := [a, b];
    assert CarriedDate(es, 1) == Some(d);
    assert CarriedDate(es, 2) == Some(d) by {
      assert !Stamped(es[1]);
    }
    assert Readable(b);
    assert !ArticleRaises(es, 0, keyword, Some(start), None);
    assert !ArticleRaises(es, 1, keyword, Some(start), None);
    assert forall i :: 0 <= i < |es| ==> !ArticleRaises(es, i, keyword, Some(start), None) by {
      forall i | 0 <= i < |es|
        ensures !ArticleRaises(es, i, keyword, Some(start), None)
      {
        assert i == 0 || i == 1;
      }
    }
    assert ArticleSelection(es, 1, keyword, Some(start), None) == [];
    assert ArticleKept(es, 1, keyword, Some(start), None) <==> NotAfter(start, d);
    assert ArticleSelection(es, 2, keyword, Some(start), None) ==
      [] + if ArticleKept(es, 1, keyword, Some(start), None) then [Record(b)] else [];
    assert ArticleSelection(es, 2, keyword, Some(start), None) == if NotAfter(start, d) then [Record(b)] else [];
    FilterMeaning(es, keyword, Some(start), None);
  }

  /** A kept record fed back to the filter as a feed entry with exactly its fields. */
  function Reread(r: ArticleRecord): RawArticle
  {
    RawArticle(Some(r.title), Some(r.description), Some(r.author), Some(r.date), Some(r.link))
  }

  function RereadAll(kept: seq<ArticleRecord>): (es: seq<RawArticle>)
    ensures |es| == |kept| && forall i :: 0 <= i < |kept| ==> es[i] == Reread(kept[i])
  {
    seq(|kept|, i requires 0 <= i < |kept| => Reread(kept[i]))
  }

  /** A qualifying record read back as an entry becomes itself again and sets `entry_date` to its own timestamp, if any. */
  lemma RereadRecord(r: ArticleRecord, keyword: string, start: Option<DateTime>, end: Option<DateTime>,
                     carried: Option<DateTime>)
    requires Qualifies(r, keyword, start, end)
    ensures HasFields(Reread(r)) && Record(Reread(r)) == r
    ensures NextEntryDate(carried, r.date) ==
      if IsStampDate(r.date) then Done(ParseStamp(r.date)) else Done(carried)
  {
    if IsStampDate(r.date) {
      assert FindStamp(r.date, 0) == Some(0);
      assert r.date[0..StampLength] == r.date;
    }
  }

  /** A qualifying record read back is kept again, as long as a bound never meets an unbound `entry_date`. */
  lemma RereadStep(before: ArticleScan, r: ArticleRecord, keyword: string,
                   start: Option<DateTime>, end: Option<DateTime>)
    requires Qualifies(r, keyword, start, end)
    requires (start.None? && end.None?) || IsStampDate(r.date) ||
             (before.entryDate.Some? && WithinBounds(before.entryDate.value, start, end))
    ensures var step := ArticleStep(before, Reread(r), keyword, start, end);
      step.Done? && step.value.kept == before.kept + [r] &&
      ((start.Some? || end.Some?) ==> step.value.entryDate.Some? && WithinBounds(step.value.entryDate.value, start, end))
  {
    RereadRecord(r, keyword, start, end, before.entryDate);
  }

  lemma RescanStep(es: seq<RawArticle>, k: nat, r: ArticleRecord, keyword: string,
                   start: Option<DateTime>, end: Option<DateTime>)
    requires k < |es| && es[k] == Reread(r) && Qualifies(r, keyword, start, end)
    requires ScanArticles(es[..k], keyword, start, end).Done?
    requires var before := ScanArticles(es[..k], keyword, start, end).value;
      (start.None? && end.None?) || IsStampDate(r.date) ||
      (before.entryDate.Some? && WithinBounds(before.entryDate.value, start, end))
    ensures var after := ScanArticles(es[..k + 1], keyword, start, end);
      after.Done? && after.value.kept == ScanArticles(es[..k], keyword, start, end).value.kept + [r] &&
      ((start.Some? || end.Some?) ==> after.value.entryDate.Some? && WithinBounds(after.value.entryDate.value, start, end))
  {
    ScanSnoc(es, k, keyword, start, end);
    RereadStep(ScanArticles(es[..k], keyword, start, end).value, r, keyword, start, end);
  }

  lemma {:induction false} Rescan(kept: seq<ArticleRecord>, k: nat, keyword: string,
                                  start: Option<DateTime>, end: Option<DateTime>)
    requires k <= |kept|
    requires forall i :: 0 <= i < |kept| ==> Qualifies(kept[i], keyword, start, end)
    requires (start.None? && end.None?) || (kept != [] && IsStampDate(kept[0].date))
    ensures var sc := ScanArticles(RereadAll(kept)[..k], keyword, start, end);
      sc.Done? && sc.value.kept == kept[..k] &&
      ((start.Some? || end.Some?) && k > 0 ==> sc.value.entryDate.Some? && WithinBounds(sc.value.entryDate.value, start, end))
    decreases k
  {
    var es := RereadAll(kept);
    if k == 0 {
      assert es[..0] == [];
      assert kept[..0] == [];
    } else {
      Rescan(kept, k - 1, keyword, start, end);
      RescanStep(es, k - 1, kept[k - 1], keyword, start, end);
      assert kept[..k] == kept[..k - 1] + [kept[k - 1]];
    }
  }

  lemma RereadQualified(kept: seq<ArticleRecord>, keyword: string, start: Option<DateTime>, end: Option<DateTime>)
    requires forall i :: 0 <= i < |kept| ==> Qualifies(kept[i], keyword, start, end)
    requires (start.None? && end.None?) || kept == [] || IsStampDate(kept[0].date)
    ensures FilteredArticles(RereadAll(kept), keyword, start, end) == Done(kept)
  {
    var again := RereadAll(kept);
    if kept == [] {
      assert again == [];
    } else {
      Rescan(kept, |kept|, keyword, start, end);
      assert again[..|kept|] == again;
      assert kept[..|kept|] == kept;
    }
  }

  /**
   * Filtering the filter's own output again gives back the same records
   * when there are no date bounds, or when the first kept record carries a
   * timestamp (every later record without one is then compared with a date
   * already within the bounds).
   */
  lemma FilterTwiceKeeps(es: seq<RawArticle>, keyword: string, start: Option<DateTime>, end: Option<DateTime>,
                         kept: seq<ArticleRecord>)
    requires FilteredArticles(es, keyword, start, end) == Done(kept)
    requires (start.None? && end.None?) || kept == [] || IsStampDate(kept[0].date)
    ensures FilteredArticles(RereadAll(kept), keyword, start, end) == Done(kept)
  {
    FilteredArticlesQualify(es, keyword, start, end, kept);
    RereadQualified(kept, keyword, start, end);
  }

  lemma RereadFirstUnstamped(kept: seq<ArticleRecord>, keyword: string, start: Option<DateTime>, end: Option<DateTime>)
    requires (start.Some? || end.Some?) && kept != [] && !IsStampDate(kept[0].date)
    requires Qualifies(kept[0], keyword, start, end)
    ensures FilteredArticles(RereadAll(kept), keyword, start, end) == Raised
  {
    var again := RereadAll(kept);
    RereadRecord(kept[0], keyword, start, end, None);
    assert Unstamped(again[0]);
    MatchBeforeAnyTimestampRaises(again, 0, keyword, start, end);
  }

  /**
   * With a date bound set, filtering the output again raises when its first
   * record has no timestamp: that record is compared before `entry_date` is
   * ever assigned. The filter is not idempotent.
   */
  lemma FilterTwiceRaises(es: seq<RawArticle>, keyword: string, start: Option<DateTime>, end: Option<DateTime>,
                          kept: seq<ArticleRecord>)
    requires FilteredArticles(es, keyword, start, end) == Done(kept)
    requires (start.Some? || end.Some?) && kept != [] && !IsStampDate(kept[0].date)
    ensures FilteredArticles(RereadAll(kept), keyword, start, end) == Raised
  {
    FilteredArticlesQualify(es, keyword, start, end, kept);
    RereadFirstUnstamped(kept, keyword, start, end);
  }
}
