# Agora filter-and-page engine, modelled in Dafny

Agora is a console tool that fetches cybersecurity news, CVE catalogues,
leak feeds and ransomware feeds, and shows each one's entries. An entry
can be filtered by keyword and by date, and entries are shown ten at a
time. Its one piece of real logic is a filter-then-paginate engine that the
source writes twice:

- `display_filtered_feed` handles the entries of an RSS or Atom feed
  (articles).
- `display_filtered_json` handles the entries of a JSON vulnerability
  catalogue.

This project models both functions once the network fetch and the printing
are taken away:

- **Input.** The parsed feed or catalogue is a given sequence of entries,
  and any attribute may be missing.
- **Interaction.** The answers typed at the "next page" prompt are a
  sequence of strings.
- **Output.** The result of one source is a `Run`: the records printed, in
  order, how many answers were read, and whether the source ended in an
  exception.

Modules:

- `Basics` holds `Option`, and `Eval`, where `Raised` stands for any
  exception inside the function's `try` block. It also defines an
  "is a subsequence after mapping" predicate.
- `Text` models `str.lower()` and the substring test `needle in hay`.
- `DateTimes` models `datetime` values and their order. It also models the
  `re.search` for the article timestamp, `strptime` for the formats
  `%d %b %Y %H:%M:%S` and `%Y-%m-%d`, and `strftime` for `%Y-%m-%d`, with
  the directive patterns and range checks that CPython applies. The source
  never writes a datetime as `%d %b %Y %H:%M:%S`. `FormatStamp` is a
  reference rendering of what Agora.py:79 parses, and the parsing lemmas are
  stated against it.
- `Paging` models the page count, the pages, and the prompt gate. It
  includes `Paginate`, the `while` loop both functions share.
- `Articles` models `display_filtered_feed`. `FilterFeed` is its filter
  loop and `DisplayFilteredFeed` is the whole function.
- `Vulnerabilities` models `display_filtered_json`. `FilterJson` is its
  filter loop and `DisplayFilteredJson` is the whole function.

Each loop of the source is a Dafny method with a loop and invariants. Each
method is proved equal to a functional definition:

- `FilteredArticles` and `FilteredVulnerabilities` for the filter loops;
- `PagedRun` and `ShownRun` for the pager.

The properties are lemmas about those definitions.

Two behaviours of the code are kept as written, although the tool's intent
reads otherwise:

- **An article date that does not parse is not simply let through.** When
  an article's publication string holds no timestamp, `entry_date` keeps
  the value the previous article gave it. With a date bound set, that stale
  date is what is compared. If no earlier article had a timestamp, the
  comparison raises, because the local is unbound, and the whole feed shows
  nothing.
- **Filtering articles again by the same criteria is not always
  idempotent.** It is idempotent without date bounds, or when the first
  kept article has a timestamp (`FilterTwiceKeeps`). With a bound set and a
  first kept article that has no timestamp, filtering the output again
  raises (`FilterTwiceRaises`). For vulnerabilities, refiltering is always
  idempotent (`FilterTwice`).

`Articles.FilterMeaning` describes the article filter exactly, stale dates
included. `Articles.StaleDateDecides` shows the consequence on two entries.

## Model

| member | source | states |
|---|---|---|
| `Text.Lower` | Agora.py:81 | `lower()` keeps the length of the string |
| `Text.LowerMeaning` | Agora.py:81 | `lower()` turns each upper-case ASCII letter into its lower-case letter and keeps every other character, so no upper-case letter remains |
| `Text.KeywordIn` | Agora.py:81 | `keyword.lower() in field.lower()` holds exactly when the folded keyword occurs at some position of the folded field; the empty keyword is in every field, and a keyword that is found is no longer than the field |
| `Text.Contains` | Agora.py:81 | `needle in hay` is true exactly when the needle occurs at some position of the hay |
| `Text.LowerIsSpace` | Agora.py:107 | an answer folds to " " under `lower()` exactly when it is a single space |
| `DateTimes.Valid` | Agora.py:79 | the field ranges the `datetime` constructor inside both `strptime` calls enforces (also line 131): year 1 to 9999, month 1 to 12, a day that exists in that month (so at most 31, and 29 February only in a leap year), and a time of day |
| `DateTimes.NotAfter` | Agora.py:82-83 | `<=` on naive datetimes, as used at lines 82-83 and 133-134: fields are compared in turn, year first, so an earlier year is before and a later one after; every datetime is not after itself |
| `DateTimes.NotAfterIsTotalOrder` | Agora.py:82-83 | datetime comparison is reflexive, antisymmetric, transitive and total |
| `DateTimes.WithinBounds` | Agora.py:82-83 | with neither bound set every date passes; with a start bound later than the end bound no date passes |
| `DateTimes.DateTest` | Agora.py:133-134 | the bound tests raise exactly when a bound is set and the date compared is None (unbound or falsy); on a date they are the inclusive range test |
| `DateTimes.BoundsAreInclusive` | Agora.py:133-134 | a date equal to both the start and the end bound passes the date test |
| `DateTimes.EndDateStopsAtMidnight` | Agora.py:187-188 | an end bound parsed from `%Y-%m-%d` is midnight, so a valid time later on that day fails it and midnight passes |
| `DateTimes.StampAt` | Agora.py:76 | the pattern `\d{2} \w{3} \d{4} \d{2}:\d{2}:\d{2}` matches at a position only when 20 characters of the string start there |
| `DateTimes.FindStamp` | Agora.py:76 | `re.search` returns the first position from which the timestamp pattern matches; no earlier position matches, and none is found only when no position matches |
| `DateTimes.MonthNumber` | Agora.py:79 | `%b` accepts a three-letter word exactly when, ignoring case, it is an English month abbreviation, and gives that month's number |
| `DateTimes.MonthNumberOfAbbreviation` | Agora.py:79 | every month's abbreviation reads back as that month |
| `DateTimes.FormatStamp` | Agora.py:79 | a reference rendering of the timestamps `strptime` parses at line 79 (the source formats none): a valid datetime written as `%d %b %Y %H:%M:%S` is a 20-character string the timestamp pattern of line 76 matches |
| `DateTimes.ParseStamp` | Agora.py:79 | a timestamp that `strptime` accepts yields a datetime the `datetime` constructor accepts |
| `DateTimes.ParseFormatStamp` | Agora.py:76-79 | writing a valid datetime as a timestamp and parsing it gives the datetime back |
| `DateTimes.ParseStampIgnoresCase` | Agora.py:79 | two timestamps equal up to case parse alike |
| `DateTimes.ParseStampExactly` | Agora.py:79 | a timestamp parses to `d` exactly when `d` is valid and its rendering equals the timestamp up to case |
| `DateTimes.ParseDate` | Agora.py:130-131 | a date added that `strptime` accepts yields a valid datetime at midnight (the exact set of accepted strings is `DateTimes.ParseDateExactly`) |
| `DateTimes.MonthFieldSpelling` | Agora.py:131 | the `%m` directive, followed by a dash, reads a month exactly when the month is written with two digits worth 1 to 12 or one digit 1 to 9 |
| `DateTimes.DayFieldSpelling` | Agora.py:131 | the final `%d` directive reads a day exactly when the rest of the string is two digits worth 1 to 31, one digit 1 to 9, or a space and one digit 1 to 9 |
| `DateTimes.ParseDateExactly` | Agora.py:131 | `strptime(s, "%Y-%m-%d")` gives `d` exactly when `d` is a valid date at midnight and `s` is four year digits, a dash, the month in one or two digits, a dash, and the day in one or two digits or as a space and a digit, with nothing after it |
| `DateTimes.FormatDate` | Agora.py:138 | `strftime("%Y-%m-%d")` is ten characters long |
| `DateTimes.ParseFormatDate` | Agora.py:131-138 | writing a valid midnight datetime as `%Y-%m-%d` and parsing it gives it back |
| `DateTimes.CanonicalDateDisplaysUnchanged` | Agora.py:131-138 | a date added already written as YYYY-MM-DD is displayed exactly as given |
| `DateTimes.ShortDateParses` | Agora.py:131 | `strptime` takes one-digit months and days ("2024-3-1"), and "2024-03-01" parses to 2024-03-01 at midnight |
| `Paging.PageCount` | Agora.py:92 | `total_pages` is 0 exactly when there are no records, and it never exceeds the number of records |
| `Paging.PageCountIsCeiling` | Agora.py:92 | `total_pages` is `ceil(n / page_size)`; it is 0 exactly when there are no records, and otherwise `(total-1)*page_size < n <= total*page_size` |
| `Paging.Page` | Agora.py:95 | every page holds between 1 and `page_size` records |
| `Paging.Pages` | Agora.py:94-95 | there are `total_pages` pages, and page `p` is the slice `[p*page_size, min((p+1)*page_size, n))` |
| `Paging.FlattenFirstPages` | Agora.py:94-95 | the first `k` pages put together are the first `min(k*page_size, n)` records |
| `Paging.PagesPartition` | Agora.py:94-95 | the pages put together in order are exactly the records, and each page holds 1 to `page_size` of them |
| `Paging.GateFrom` | Agora.py:105-109 | once page `p` is shown, paging continues only through answers that are a single space; it ends after the last page, on another answer, or when `input()` finds no answer left |
| `Paging.AllPagesShownIff` | Agora.py:105-109 | every page is shown exactly when the `total_pages - 1` prompts all got an answer, and each answer was a single space |
| `Paging.PromptsOnlyBetweenPages` | Agora.py:105-106 | at most `total_pages - 1` answers are read, and with at most one page there is no prompt |
| `Paging.SessionAborts` | Agora.py:105-112 | `input()` raises exactly when every answer given was a single space and there were fewer answers than prompts |
| `Paging.PagedRunShowsAll` | Agora.py:94-109 | every record is printed exactly when the session reaches the last page |
| `Paging.PagedRunShowsPrefix` | Agora.py:92-109 | the pager prints a prefix of the records made of whole pages; it prints all of them exactly when every prompt gets a single space; with no records it prints nothing and reads nothing |
| `Paging.TwentyFiveInPagesOfTen` | Agora.py:92-109 | 25 records with page size 10 form pages of 10, 10 and 5; two " " answers show all 25, and any other first answer stops after the first 10 |
| `Paging.PagedRun` | Agora.py:92-109 | the functional definition of the paging loop: it reads no more answers than were given, and with no records it prints nothing, reads nothing and ends normally (its content is stated by `Paging.PagedRunShowsPrefix`) |
| `Paging.ShownRun` | Agora.py:92-112 | what one call shows after filtering: it reads no more answers than were given, and it ends normally only when the filter did not raise and the page size is positive (`Paging.ShownRunIsPrefix` states the rest) |
| `Paging.ShowPage` | Agora.py:95-103 | printing a page appends exactly its records, in order |
| `Paging.Paginate` | Agora.py:92-109 | the `while` loop prints and reads exactly what the paging session does, and an EOF at the prompt ends it as an error after the pages already shown |
| `Paging.ShownRunIsPrefix` | Agora.py:92-112 | a filter that raised, or a page size of 0, shows nothing and ends in error; otherwise what is shown is a prefix of the filtered records |
| `Articles.Record` | Agora.py:70-90 | the dict appended for an entry: title, description and link as read; the author, or `'unknown author '` when the entry has none (line 72); and as date the first timestamp in the publication string, or the whole string when it holds none (lines 73 and 78) |
| `Articles.FilteredArticles` | Agora.py:68-90 | the functional definition of the filter loop that `Articles.FilterFeed` is proved equal to; an empty feed gives an empty list, and its exact content is `Articles.FilterMeaning` |
| `Articles.DisplayedDate` | Agora.py:73-78 | when the publication string holds a timestamp, the date shown is the 20-character window at the first position where the timestamp pattern matches (`DateTimes.FindStamp`), and it is one timestamp; otherwise it is the whole publication string |
| `Articles.NextEntryDate` | Agora.py:76-79 | without a timestamp `entry_date` keeps its value; with one, the block raises exactly when `strptime` rejects the first timestamp, and otherwise `entry_date` becomes its datetime |
| `Articles.TitleMatches` | Agora.py:81 | the keyword test holds exactly when the keyword is empty or, ignoring case, occurs in the title |
| `Articles.ArticleStep` | Agora.py:70-90 | a loop pass that does not raise found every attribute it reads (what it does exactly is `Articles.StepMeaning`) |
| `Articles.ReadEntryDate` | Agora.py:76-79 | the `date_match` block gives the displayed date and the new `entry_date`, and raises on a timestamp that `strptime` rejects |
| `Articles.CheckDates` | Agora.py:82-83 | the two nested bound tests give the inclusive range test, and raise when a bound is set and `entry_date` is unbound |
| `Articles.FilterEntry` | Agora.py:70-90 | one loop pass raises on a missing attribute or an unparseable timestamp, updates `entry_date`, and appends the entry's record exactly when the title matches and the date test passes |
| `Articles.FilterFeed` | Agora.py:68-90 | the filter loop returns the list that the functional definition of the filter gives, or raises when it does |
| `Articles.DisplayFilteredFeed` | Agora.py:65-112 | the whole function shows what paging the filtered articles with the given answers shows; an exception in filtering shows nothing |
| `Articles.CarriedAcrossUnstamped` | Agora.py:76-79 | entries without a timestamp leave `entry_date` as it was |
| `Articles.CarriedDateIsLastStamp` | Agora.py:76-79 | after any run of entries, `entry_date` is the datetime of the last entry read whose publication string holds a timestamp |
| `Articles.CarriedDateUnbound` | Agora.py:76-79 | before the first entry with a timestamp, `entry_date` is unbound |
| `Articles.StepMeaning` | Agora.py:70-90 | one loop pass, from the `entry_date` the earlier entries left, raises exactly when the entry misses an attribute, has a timestamp `strptime` rejects, or matches with a bound set and `entry_date` unbound; otherwise it updates `entry_date` and appends the entry's record exactly when the title matches and the date compared is within the bounds |
| `Articles.ScanMeaning` | Agora.py:69-90 | after the first `k` entries the loop has raised exactly when one of them raises as `StepMeaning` says, and otherwise holds the last timestamp read and exactly the kept entries' records, in order |
| `Articles.FilterMeaning` | Agora.py:69-90 | the filter, with or without bounds, raises exactly when some entry raises, and otherwise keeps exactly the records of the entries whose title matches and whose carried `entry_date` is within the bounds, in feed order |
| `Articles.StaleDateDecides` | Agora.py:76-83 | a matching entry without a timestamp, after a non-matching entry stamped `d`, is kept under a start bound exactly when `d` is not before it: the stale date decides |
| `Articles.RaisedPersists` | Agora.py:69-90 | once one entry raises, the whole feed raises, whatever follows |
| `Articles.FilteredArticlesQualify` | Agora.py:69-90 | the kept records are the entries' records in feed order. Each has the keyword in its title. Its date is either a timestamp that parses to a datetime within the bounds, or a publication string that holds no timestamp |
| `Articles.OnlyTitleIsSearched` | Agora.py:81 | changing an entry's description or author changes neither whether it raises, nor `entry_date`, nor whether it is kept |
| `Articles.UnstampedLeavesDateUnbound` | Agora.py:76-79 | entries without a timestamp never assign `entry_date` |
| `Articles.MatchBeforeAnyTimestampRaises` | Agora.py:76-83 | with a bound set, a title match before any entry with a timestamp makes the feed raise (unbound `entry_date`) |
| `Articles.FilterWithoutBounds` | Agora.py:69-90 | with no bounds, dates are never compared: the filter raises exactly when an entry misses an attribute or has an unparseable timestamp, and otherwise keeps exactly the entries whose title holds the keyword, in order |
| `Articles.FilterTwiceKeeps` | Agora.py:69-90 | refiltering the output with the same criteria gives it back when there are no bounds or the first kept record has a timestamp |
| `Articles.FilterTwiceRaises` | Agora.py:76-83 | with a bound set, refiltering an output whose first record has no timestamp raises, so the article filter is not idempotent |
| `Vulnerabilities.AddedDate` | Agora.py:130-131 | a date added that is present and non-empty is parsed to a valid midnight datetime, or raises |
| `Vulnerabilities.AddedText` | Agora.py:138 | `date_added.strftime("%Y-%m-%d") if date_added else ""`: empty when there is no date, and ten characters otherwise |
| `Vulnerabilities.AddedTextReadsBack` | Agora.py:131-138 | the date shown is empty exactly when there is no date, and a date that `strptime` produced parses back from it to itself |
| `Vulnerabilities.Record` | Agora.py:135-140 | the dict appended for a kept vulnerability: `cveID`, `vulnerabilityName` and `shortDescription` as `.get` returned them, and the date shown as `AddedText` writes it |
| `Vulnerabilities.FilteredVulnerabilities` | Agora.py:117-140 | the functional definition of the filter loop that `Vulnerabilities.FilterJson` is proved equal to; a document without a `vulnerabilities` list raises, an empty list gives an empty list, and its exact content is `Vulnerabilities.FilterMeaning` |
| `Vulnerabilities.KeywordTest` | Agora.py:125-128 | the empty keyword passes; when the test does not raise, it holds exactly when the keyword is in one of the three fields |
| `Vulnerabilities.Verdict` | Agora.py:125-140 | a vulnerability that is kept matches the keyword, has a date added that parses or is absent, and is kept as its record with that date |
| `Vulnerabilities.FilterVulnerability` | Agora.py:120-140 | one loop pass appends the vulnerability's record exactly when its keyword test and date test pass, and raises where the source does |
| `Vulnerabilities.FilterJson` | Agora.py:117-140 | the filter loop returns the list that the functional definition of the filter gives; a document without `vulnerabilities` raises |
| `Vulnerabilities.DisplayFilteredJson` | Agora.py:114-161 | the whole function shows what paging the filtered vulnerabilities with the given answers shows; an exception in filtering shows nothing |
| `Vulnerabilities.RaisedPersists` | Agora.py:119-140 | once one vulnerability raises, the whole catalogue raises |
| `Vulnerabilities.KeywordTestMeaning` | Agora.py:125-128 | when the keyword test does not raise, it holds exactly when the keyword is empty or is in at least one of `cveID`, `vulnerabilityName` and `shortDescription`; it raises exactly when a missing field is reached before a field that holds the keyword |
| `Vulnerabilities.DescriptionAloneMatches` | Agora.py:125-128 | the keyword in the description alone is enough: with no bounds, such a vulnerability is kept |
| `Vulnerabilities.FilteredVulnerabilitiesQualify` | Agora.py:119-140 | the kept records are the vulnerabilities' records in catalogue order. Each passes the keyword test. Its date is empty only when no bound is set; otherwise it is a `%Y-%m-%d` date within the bounds |
| `Vulnerabilities.VerdictMeaning` | Agora.py:125-140 | one vulnerability raises exactly in the listed cases (keyword test raises; it matches and its date does not parse; it matches, its date is missing or empty, and a bound is set), and otherwise is kept exactly when it matches and its date is absent or within the bounds |
| `Vulnerabilities.FilterMeaning` | Agora.py:119-140 | the filter raises exactly when the document has no vulnerability list or some vulnerability raises, and otherwise keeps exactly the selected vulnerabilities, in order |
| `Vulnerabilities.MissingDateWithBoundRaises` | Agora.py:130-134 | with a bound set, a matching vulnerability with a missing or empty date added makes the catalogue raise |
| `Vulnerabilities.SingleVulnerabilityKept` | Agora.py:125-140 | a matching vulnerability whose date parses within the bounds is kept as its record |
| `Vulnerabilities.AddedOnBothBoundsKept` | Agora.py:130-138 | a vulnerability added on "2024-03-01", filtered with start and end date 2024-03-01, is kept and shown with date "2024-03-01" |
| `Vulnerabilities.Log4jFoundInDescriptionOnly` | Agora.py:125-128 | the keyword "log4j" finds a vulnerability whose description holds "Log4j" although its identifier and name do not |
| `Vulnerabilities.FilterTwice` | Agora.py:119-140 | refiltering the output with the same keyword and bounds gives it back: the vulnerability filter is idempotent |

## Left out

- Network access is not modelled. The parsed feed (`feedparser.parse`,
  Agora.py:67) is a given sequence of entries, and the JSON document
  (`requests.get(...).json()`, Agora.py:116) is its `vulnerabilities` list,
  or None when that key is missing. A failure to fetch is foreign code.
- Printing is reduced to the sequence of records shown: the field labels,
  `termcolor`, the banner and the error message text. The `verbose` flag
  only chooses whether the description is printed, so it is left out with
  the printing.
- `main`, `argparse` and the source tables (Agora.py:21-63, 163-241) are
  glue that calls the two functions once per source. They are not
  modelled. One quirk there: for the leak category with a keyword, the
  keyword and both dates are passed as None (Agora.py:221).
- A keyword of None is modelled as the empty keyword. Both are falsy, so
  `not keyword` treats them alike.
- Only non-negative page sizes are modelled (`nat`). `main` always uses the
  default of 10. A page size of 0 is modelled (ZeroDivisionError).
- Case folding is ASCII only, and `\w` and `\d` are ASCII word characters
  and digits. Python's Unicode `str.lower()` and Unicode character classes
  are not modelled.
- Entry values are strings or absent. A JSON value of another type (a
  number, a list), or an entry that is not a dictionary, is not modelled.
- The bounds are any datetimes. The fact that `main` produces them at
  midnight is used only in `DateTimes.EndDateStopsAtMidnight`.
- DateTimes.FormatDate: it always writes a four-digit year. The platform
  `strftime` may write years below 1000 without leading zeros.
- DateTimes.MonthNumber: only the English (C locale) month abbreviations
  are recognised. The `%b` names of other locales are not.
