/**
 * `display_filtered_json`: the vulnerabilities of one JSON catalogue,
 * filtered by a keyword that may sit in any of three fields and by the date
 * each vulnerability was added, then shown page by page.
 *
 * Unlike the article filter, nothing is carried from one vulnerability to
 * the next: whether one raises, is skipped or is kept depends on it alone.
 */
module Vulnerabilities {
  import opened Basics
  import opened Text
  import opened DateTimes
  import opened Paging

  /** A catalogue entry; `.get` gives None for a key that is not there. */
  datatype RawVulnerability = RawVulnerability(
    cveID: Option<string>, vulnerabilityName: Option<string>,
    dateAdded: Option<string>, shortDescription: Option<string>)

  /** The dictionary appended to `vulnerabilities`. */
  datatype VulnerabilityRecord = VulnerabilityRecord(
    cveID: Option<string>, vulnerabilityName: Option<string>,
    dateAdded: string, description: Option<string>)

  /** A field that is there and holds the keyword, ignoring case. */
  predicate FieldHas(keyword: string, field: Option<string>)
  {
    field.Some? && KeywordIn(keyword, field.value)
  }

  /** Reference meaning of the keyword test: no keyword, or the keyword in at least one of the three fields. */
  predicate AnyFieldMatches(keyword: string, cveID: Option<string>, name: Option<string>, description: Option<string>)
  {
    keyword == "" || FieldHas(keyword, cveID) || FieldHas(keyword, name) || FieldHas(keyword, description)
  }

  /**
   * The keyword condition evaluated left to right as Python's `or` does:
   * the first field holding the keyword ends the test, and a missing field
   * reached before that raises (`None` has no `lower`).
   */
  function KeywordTest(keyword: string, cveID: Option<string>, name: Option<string>, description: Option<string>)
    : (r: Eval<bool>)
    ensures keyword == "" ==> r == Done(true)
    ensures r.Done? ==> (r.value <==> AnyFieldMatches(keyword, cveID, name, description))
  {
    if keyword == "" then Done(true)
    else if cveID.None? then Raised
    else if KeywordIn(keyword, cveID.value) then Done(true)
    else if name.None? then Raised
    else if KeywordIn(keyword, name.value) then Done(true)
    else if description.None? then Raised
    else Done(KeywordIn(keyword, description.value))
  }

  /**
   * `date_added` after the `if date_added:` block: None while it is falsy
   * (missing or empty), otherwise parsed with `%Y-%m-%d`; `strptime` raises
   * on a string it rejects.
   */
  function AddedDate(v: RawVulnerability): (r: Eval<Option<DateTime>>)
    ensures r.Done? && r.value.Some? ==> Valid(r.value.value) && IsMidnight(r.value.value)
  {
    if v.dateAdded.None? || v.dateAdded.value == "" then Done(None)
    else
      match ParseDate(v.dateAdded.value)
      case None => Raised
      case Some(d) => Done(Some(d))
  }

  /** `date_added.strftime("%Y-%m-%d") if date_added else ""` */
  function AddedText(added: Option<DateTime>): (r: string)
    requires added.Some? ==> Valid(added.value)
    ensures added.None? ==> r == ""
    ensures added.Some? ==> |r| == 10
  {
    if added.Some? then FormatDate(added.value) else ""
  }

  /** The date shown for a vulnerability parses back to the date it was added. */
  lemma AddedTextReadsBack(added: Option<DateTime>)
    requires added.Some? ==> Valid(added.value) && IsMidnight(added.value)
    ensures AddedText(added) == "" <==> added.None?
    ensures added.Some? ==> ParseDate(AddedText(added)) == added
  {
    if added.Some? {
      ParseFormatDate(added.value);
    }
  }

  /** The record a kept vulnerability becomes; the other three fields are copied as `.get` returned them. */
  function Record(v: RawVulnerability, added: Option<DateTime>): (r: VulnerabilityRecord)
    requires added.Some? ==> Valid(added.value)
    ensures r.cveID == v.cveID && r.vulnerabilityName == v.vulnerabilityName && r.description == v.shortDescription
    ensures r.dateAdded == AddedText(added)
  {
    VulnerabilityRecord(v.cveID, v.vulnerabilityName, AddedText(added), v.shortDescription)
  }

  /**
   * The loop body for one vulnerability: Raised when it raises, otherwise
   * the record it appends, if any. The date is read and compared only when
   * the keyword matched.
   */
  function Verdict(v: RawVulnerability, keyword: string, start: Option<DateTime>, end: Option<DateTime>)
    : (r: Eval<Option<VulnerabilityRecord>>)
    ensures r.Done? && r.value.Some? ==>
      AnyFieldMatches(keyword, v.cveID, v.vulnerabilityName, v.shortDescription) &&
      AddedDate(v).Done? && r.value.value == Record(v, AddedDate(v).value)
  {
    match KeywordTest(keyword, v.cveID, v.vulnerabilityName, v.shortDescription)
    case Raised => Raised
    case Done(matched) =>
      if !matched then Done(None)
      else
        match AddedDate(v)
        case Raised => Raised
        case Done(added) =>
          match DateTest(added, start, end)
          case Raised => Raised
          case Done(keep) => Done(if keep then Some(Record(v, added)) else None)
  }

  /** The list after one more vulnerability: unchanged, one record longer, or Raised. */
  function Appended(kept: seq<VulnerabilityRecord>, verdict: Eval<Option<VulnerabilityRecord>>)
    : Eval<seq<VulnerabilityRecord>>
  {
    match verdict
    case Raised => Raised
    case Done(None) => Done(kept)
    case Done(Some(r)) => Done(kept + [r])
  }

  /** The loop over the first `|vs|` vulnerabilities. */
  function ScanVulnerabilities(vs: seq<RawVulnerability>, keyword: string,
                               start: Option<DateTime>, end: Option<DateTime>): Eval<seq<VulnerabilityRecord>>
    decreases |vs|
  {
    if vs == [] then Done([])
    else
      match ScanVulnerabilities(vs[..|vs| - 1], keyword, start, end)
      case Raised => Raised
      case Done(kept) => Appended(kept, Verdict(vs[|vs| - 1], keyword, start, end))
  }

  /**
   * The list `vulnerabilities` the loop builds from `data['vulnerabilities']`
   * (None when the document has no such key, and the lookup raises).
   */
  function FilteredVulnerabilities(data: Option<seq<RawVulnerability>>, keyword: string,
                                   start: Option<DateTime>, end: Option<DateTime>): (r: Eval<seq<VulnerabilityRecord>>)
    ensures data.None? ==> r.Raised?
    ensures data == Some([]) ==> r == Done([])
  {
    if data.None? then Raised else ScanVulnerabilities(data.value, keyword, start, end)
  }

  lemma ScanSnoc(vs: seq<RawVulnerability>, i: nat, keyword: string, start: Option<DateTime>, end: Option<DateTime>)
    requires i < |vs|
    ensures ScanVulnerabilities(vs[..i + 1], keyword, start, end) ==
      match ScanVulnerabilities(vs[..i], keyword, start, end)
      case Raised => Raised
      case Done(kept) => Appended(kept, Verdict(vs[i], keyword, start, end))
  {
    assert vs[..i + 1][..i] == vs[..i];
  }

  /** Once the loop has raised, the rest of the catalogue changes nothing. */
  lemma {:induction false} RaisedPersists(vs: seq<RawVulnerability>, i: nat, keyword: string,
                                          start: Option<DateTime>, end: Option<DateTime>)
    requires i <= |vs| && ScanVulnerabilities(vs[..i], keyword, start, end).Raised?
    ensures ScanVulnerabilities(vs, keyword, start, end).Raised?
    decreases |vs| - i
  {
    if i == |vs| {
      assert vs[..i] == vs;
    } else {
      ScanSnoc(vs, i, keyword, start, end);
      RaisedPersists(vs, i + 1, keyword, start, end);
    }
  }

  /**
   * The body of the loop of `display_filtered_json` for one vulnerability,
   * from the list the earlier ones left; an exception gives Raised.
   */
  method FilterVulnerability(vulnerabilities: seq<VulnerabilityRecord>, v: RawVulnerability, keyword: string,
                             start: Option<DateTime>, end: Option<DateTime>)
    returns (r: Eval<seq<VulnerabilityRecord>>)
    ensures r == Appended(vulnerabilities, Verdict(v, keyword, start, end))
  {
    var cveID, name, dateAdded, description := v.cveID, v.vulnerabilityName, v.dateAdded, v.shortDescription;
    var matched := KeywordTest(keyword, cveID, name, description);
    if matched.Raised? {
      return Raised;
    }
    if !matched.value {
      return Done(vulnerabilities);
    }
    var added: Option<DateTime> := None;
    if dateAdded.Some? && dateAdded.value != "" {
      added := ParseDate(dateAdded.value);
      if added.None? {
        return Raised;
      }
    }
    if start.Some? {
      if added.None? {
        return Raised;
      }
      if !NotAfter(start.value, added.value) {
        return Done(vulnerabilities);
      }
    }
    if end.Some? {
      if added.None? {
        return Raised;
      }
      if !NotAfter(added.value, end.value) {
        return Done(vulnerabilities);
      }
    }
    var date := if added.Some? then FormatDate(added.value) else "";
    r := Done(vulnerabilities + [VulnerabilityRecord(cveID, name, date, description)]);
  }

  /** The loop of `display_filtered_json` over `data['vulnerabilities']`; an exception ends it with Raised. */
  method FilterJson(data: Option<seq<RawVulnerability>>, keyword: string,
                    start: Option<DateTime>, end: Option<DateTime>)
    returns (r: Eval<seq<VulnerabilityRecord>>)
    ensures r == FilteredVulnerabilities(data, keyword, start, end)
  {
    if data.None? {
      return Raised;
    }
    var vs := data.value;
    var vulnerabilities: seq<VulnerabilityRecord> := [];
    for i := 0 to |vs|
      invariant ScanVulnerabilities(vs[..i], keyword, start, end) == Done(vulnerabilities)
    {
      ScanSnoc(vs, i, keyword, start, end);
      var step := FilterVulnerability(vulnerabilities, vs[i], keyword, start, end);
      if step.Raised? {
        RaisedPersists(vs, i + 1, keyword, start, end);
        return Raised;
      }
      vulnerabilities := step.value;
    }
    assert vs[..|vs|] == vs;
    r := Done(vulnerabilities);
  }

  /**
   * `display_filtered_json` on a catalogue: filter, then page through the
   * result, reading the answers to the prompts from `responses`.
   */
  method DisplayFilteredJson(data: Option<seq<RawVulnerability>>, keyword: string,
                             start: Option<DateTime>, end: Option<DateTime>,
                             pageSize: nat, responses: seq<string>)
    returns (run: Run<VulnerabilityRecord>)
    ensures run == ShownRun(FilteredVulnerabilities(data, keyword, start, end), pageSize, responses)
  {
    var filtered := FilterJson(data, keyword, start, end);
    if filtered.Raised? || pageSize == 0 {
      return Run([], 0, true);
    }
    run := Paginate(filtered.value, pageSize, responses);
  }

  // ------------------------------------------------------------ properties

  /**
   * The keyword test means "some field holds the keyword" whenever it does
   * not raise, and it raises exactly when a missing field is reached before
   * any field holding the keyword.
   */
  lemma KeywordTestMeaning(keyword: string, cveID: Option<string>, name: Option<string>, description: Option<string>)
    ensures KeywordTest(keyword, cveID, name, description).Done? ==>
      KeywordTest(keyword, cveID, name, description).value == AnyFieldMatches(keyword, cveID, name, description)
    ensures KeywordTest(keyword, cveID, name, description).Raised? <==>
      keyword != "" &&
      (cveID.None? || (!FieldHas(keyword, cveID) && (name.None? || (!FieldHas(keyword, name) && description.None?))))
    ensures cveID.Some? && name.Some? && description.Some? ==>
      KeywordTest(keyword, cveID, name, description) == Done(AnyFieldMatches(keyword, cveID, name, description))
  {
  }

  /**
   * The keyword found in the description alone is enough: a vulnerability
   * whose identifier and name do not hold it is kept when the description
   * does, if its date passes.
   */
  lemma DescriptionAloneMatches(keyword: string, v: RawVulnerability)
    requires v.cveID.Some? && v.vulnerabilityName.Some?
    requires !KeywordIn(keyword, v.cveID.value) && !KeywordIn(keyword, v.vulnerabilityName.value)
    requires FieldHas(keyword, v.shortDescription)
    ensures KeywordTest(keyword, v.cveID, v.vulnerabilityName, v.shortDescription) == Done(true)
    ensures AddedDate(v).Done? ==> Verdict(v, keyword, None, None) == Done(Some(Record(v, AddedDate(v).value)))
  {
  }

  /**
   * What every kept record satisfies: the keyword test passes on its fields
   * without raising, so some field holds the keyword; and its
   * date is empty only when no bound is set; otherwise it is a date within
   * the bounds, written as `strftime` writes it.
   */
  predicate Qualifies(r: VulnerabilityRecord, keyword: string, start: Option<DateTime>, end: Option<DateTime>)
  {
    KeywordTest(keyword, r.cveID, r.vulnerabilityName, r.description) == Done(true) &&
    AnyFieldMatches(keyword, r.cveID, r.vulnerabilityName, r.description) &&
    if r.dateAdded == "" then start.None? && end.None?
    else
      ParseDate(r.dateAdded).Some? && FormatDate(ParseDate(r.dateAdded).value) == r.dateAdded &&
      WithinBounds(ParseDate(r.dateAdded).value, start, end)
  }

  /** A vulnerability as a record, or nothing when its date does not parse. */
  function Normalize(v: RawVulnerability): Option<VulnerabilityRecord>
  {
    match AddedDate(v)
    case Raised => None
    case Done(added) => Some(Record(v, added))
  }

  /** A record one vulnerability yields is that vulnerability's record, and it qualifies. */
  lemma VerdictQualifies(v: RawVulnerability, keyword: string, start: Option<DateTime>, end: Option<DateTime>)
    requires Verdict(v, keyword, start, end).Done? && Verdict(v, keyword, start, end).value.Some?
    ensures var r := Verdict(v, keyword, start, end).value.value;
      Normalize(v) == Some(r) && Qualifies(r, keyword, start, end)
  {
    KeywordTestMeaning(keyword, v.cveID, v.vulnerabilityName, v.shortDescription);
    var added := AddedDate(v).value;
    if added.Some? {
      ParseFormatDate(added.value);
    }
  }

  /** One more vulnerability keeps the list as it was, or appends that vulnerability's record, which qualifies. */
  lemma StepKeepsQualified(kept: seq<VulnerabilityRecord>, v: RawVulnerability, keyword: string,
                           start: Option<DateTime>, end: Option<DateTime>)
    requires Appended(kept, Verdict(v, keyword, start, end)).Done?
    ensures var after := Appended(kept, Verdict(v, keyword, start, end)).value;
      after == kept ||
      (Normalize(v).Some? && after == kept + [Normalize(v).value] && Qualifies(Normalize(v).value, keyword, start, end))
  {
    if Verdict(v, keyword, start, end).value.Some? {
      VerdictQualifies(v, keyword, start, end);
    }
  }

  lemma {:induction false} ScanKeepsQualified(vs: seq<RawVulnerability>, keyword: string,
                                              start: Option<DateTime>, end: Option<DateTime>)
    ensures match ScanVulnerabilities(vs, keyword, start, end)
      case Raised => true
      case Done(kept) => IsSubseqVia(kept, vs, Normalize) &&
                         forall i :: 0 <= i < |kept| ==> Qualifies(kept[i], keyword, start, end)
    decreases |vs|
  {
    if vs != [] {
      var prefix, v := vs[..|vs| - 1], vs[|vs| - 1];
      assert vs == prefix + [v];
      ScanKeepsQualified(prefix, keyword, start, end);
      var before := ScanVulnerabilities(prefix, keyword, start, end);
      if before.Done? && Appended(before.value, Verdict(v, keyword, start, end)).Done? {
        StepKeepsQualified(before.value, v, keyword, start, end);
        var after := Appended(before.value, Verdict(v, keyword, start, end)).value;
        SubseqSnoc(before.value, prefix, Normalize, v, after != before.value);
      }
    }
  }

  /**
   * The filter keeps vulnerabilities in catalogue order, each turned into
   * its record, and every record it keeps qualifies.
   */
  lemma FilteredVulnerabilitiesQualify(data: Option<seq<RawVulnerability>>, keyword: string,
                                       start: Option<DateTime>, end: Option<DateTime>, kept: seq<VulnerabilityRecord>)
    requires FilteredVulnerabilities(data, keyword, start, end) == Done(kept)
    ensures data.Some? && IsSubseqVia(kept, data.value, Normalize)
    ensures forall i :: 0 <= i < |kept| ==> Qualifies(kept[i], keyword, start, end)
  {
    ScanKeepsQualified(data.value, keyword, start, end);
  }

  /**
   * Reference description of when one vulnerability raises: its keyword
   * test raises; or it matches and its date does not parse; or it matches,
   * its date is missing or empty, and a bound is set.
   */
  predicate Raises(v: RawVulnerability, keyword: string, start: Option<DateTime>, end: Option<DateTime>)
  {
    KeywordTest(keyword, v.cveID, v.vulnerabilityName, v.shortDescription).Raised? ||
    (KeywordTest(keyword, v.cveID, v.vulnerabilityName, v.shortDescription) == Done(true) &&
     (AddedDate(v).Raised? || (AddedDate(v) == Done(None) && (start.Some? || end.Some?))))
  }

  /** Reference definition of whether a vulnerability that does not raise is kept. */
  predicate Selected(v: RawVulnerability, keyword: string, start: Option<DateTime>, end: Option<DateTime>)
    requires !Raises(v, keyword, start, end)
  {
    AnyFieldMatches(keyword, v.cveID, v.vulnerabilityName, v.shortDescription) &&
    (AddedDate(v).value.None? || WithinBounds(AddedDate(v).value.value, start, end))
  }

  /** Reference definition of the filter's output: the records of the selected vulnerabilities, in order. */
  function Selection(vs: seq<RawVulnerability>, keyword: string, start: Option<DateTime>, end: Option<DateTime>)
    : seq<VulnerabilityRecord>
    requires forall i :: 0 <= i < |vs| ==> !Raises(vs[i], keyword, start, end)
    decreases |vs|
  {
    if vs == [] then []
    else
      var v := vs[|vs| - 1];
      assert !Raises(v, keyword, start, end);
      Selection(vs[..|vs| - 1], keyword, start, end) +
      if Selected(v, keyword, start, end) then [Record(v, AddedDate(v).value)] else []
  }

  /** One vulnerability raises exactly as `Raises` says, and otherwise yields its record exactly when it is selected. */
  lemma VerdictMeaning(v: RawVulnerability, keyword: string, start: Option<DateTime>, end: Option<DateTime>)
    ensures Verdict(v, keyword, start, end).Raised? <==> Raises(v, keyword, start, end)
    ensures !Raises(v, keyword, start, end) ==>
      Verdict(v, keyword, start, end) ==
      Done(if Selected(v, keyword, start, end) then Some(Record(v, AddedDate(v).value)) else None)
  {
    KeywordTestMeaning(keyword, v.cveID, v.vulnerabilityName, v.shortDescription);
  }

  lemma SelectionStep(vs: seq<RawVulnerability>, keyword: string, start: Option<DateTime>, end: Option<DateTime>)
    requires vs != [] && forall i :: 0 <= i < |vs| ==> !Raises(vs[i], keyword, start, end)
    requires var prefix := vs[..|vs| - 1];
      ScanVulnerabilities(prefix, keyword, start, end) == Done(Selection(prefix, keyword, start, end))
    ensures ScanVulnerabilities(vs, keyword, start, end) == Done(Selection(vs, keyword, start, end))
  {
    var prefix, v := vs[..|vs| - 1], vs[|vs| - 1];
    VerdictMeaning(v, keyword, start, end);
    var sel := Selection(prefix, keyword, start, end);
    if Selected(v, keyword, start, end) {
      assert Selection(vs, keyword, start, end) == sel + [Record(v, AddedDate(v).value)];
    } else {
      assert Selection(vs, keyword, start, end) == sel;
    }
  }

  lemma {:induction false} ScanMeaning(vs: seq<RawVulnerability>, keyword: string,
                                       start: Option<DateTime>, end: Option<DateTime>)
    ensures (forall i :: 0 <= i < |vs| ==> !Raises(vs[i], keyword, start, end)) ==>
            ScanVulnerabilities(vs, keyword, start, end) == Done(Selection(vs, keyword, start, end))
    ensures (exists i :: 0 <= i < |vs| && Raises(vs[i], keyword, start, end)) ==>
            ScanVulnerabilities(vs, keyword, start, end).Raised?
    decreases |vs|
  {
    if vs != [] {
      var prefix, v := vs[..|vs| - 1], vs[|vs| - 1];
      ScanMeaning(prefix, keyword, start, end);
      if forall i :: 0 <= i < |vs| ==> !Raises(vs[i], keyword, start, end) {
        assert forall i :: 0 <= i < |prefix| ==> prefix[i] == vs[i];
        SelectionStep(vs, keyword, start, end);
      } else {
        var i :| 0 <= i < |vs| && Raises(vs[i], keyword, start, end);
        var before := ScanVulnerabilities(prefix, keyword, start, end);
        if i < |prefix| {
          assert prefix[i] == vs[i];
          assert before.Raised?;
        } else if before.Done? {
          VerdictMeaning(v, keyword, start, end);
          assert Appended(before.value, Verdict(v, keyword, start, end)).Raised?;
        }
        assert ScanVulnerabilities(vs, keyword, start, end).Raised?;
      }
    }
  }

  /**
   * The filter raises exactly when the document has no vulnerability list
   * or some vulnerability raises, and otherwise keeps precisely the selected
   * ones, in order. Which vulnerabilities raise does not depend on the others.
   */
  lemma FilterMeaning(data: Option<seq<RawVulnerability>>, keyword: string,
                      start: Option<DateTime>, end: Option<DateTime>)
    ensures FilteredVulnerabilities(data, keyword, start, end) ==
      if data.None? || exists i :: 0 <= i < |data.value| && Raises(data.value[i], keyword, start, end) then Raised
      else Done(Selection(data.value, keyword, start, end))
  {
    if data.Some? {
      ScanMeaning(data.value, keyword, start, end);
    }
  }

  /**
   * With a date bound set, a vulnerability that matches the keyword but has
   * no date added (missing or empty) makes the whole catalogue raise:
   * `None` or `""` is compared with a datetime.
   */
  lemma MissingDateWithBoundRaises(vs: seq<RawVulnerability>, i: nat, keyword: string,
                                   start: Option<DateTime>, end: Option<DateTime>)
    requires i < |vs| && (start.Some? || end.Some?)
    requires KeywordTest(keyword, vs[i].cveID, vs[i].vulnerabilityName, vs[i].shortDescription) == Done(true)
    requires vs[i].dateAdded.None? || vs[i].dateAdded == Some("")
    ensures FilteredVulnerabilities(Some(vs), keyword, start, end) == Raised
  {
    assert Raises(vs[i], keyword, start, end);
    FilterMeaning(Some(vs), keyword, start, end);
  }

  // ------------------------------------------------------------ scenarios

  lemma SingleVulnerability(v: RawVulnerability, keyword: string, start: Option<DateTime>, end: Option<DateTime>)
    ensures FilteredVulnerabilities(Some([v]), keyword, start, end) == Appended([], Verdict(v, keyword, start, end))
  {
    ScanSnoc([v], 0, keyword, start, end);
    assert [v][..1] == [v] && [v][..0] == [];
  }

  /** A catalogue of one vulnerability that matches and whose date parses within the bounds yields its record. */
  lemma SingleVulnerabilityKept(v: RawVulnerability, keyword: string, start: Option<DateTime>, end: Option<DateTime>,
                                d: DateTime)
    requires KeywordTest(keyword, v.cveID, v.vulnerabilityName, v.shortDescription) == Done(true)
    requires AddedDate(v) == Done(Some(d)) && WithinBounds(d, start, end)
    ensures FilteredVulnerabilities(Some([v]), keyword, start, end) == Done([Record(v, Some(d))])
  {
    SingleVulnerability(v, keyword, start, end);
    assert DateTest(Some(d), start, end) == Done(true);
    assert Verdict(v, keyword, start, end) == Done(Some(Record(v, Some(d))));
    assert [] + [Record(v, Some(d))] == [Record(v, Some(d))];
  }

  /**
   * Both bounds are inclusive: a vulnerability added on "2024-03-01",
   * filtered with start and end date 2024-03-01, is kept, its date shown as
   * it was given.
   */
  lemma AddedOnBothBoundsKept(cveID: string, name: string, added: string, description: string)
    requires added == "2024-03-01"
    ensures var v := RawVulnerability(Some(cveID), Some(name), Some(added), Some(description));
      var day := Some(DateTime(2024, 3, 1, 0, 0, 0));
      FilteredVulnerabilities(Some([v]), "", day, day) ==
      Done([VulnerabilityRecord(Some(cveID), Some(name), added, Some(description))])
  {
    var v := RawVulnerability(Some(cveID), Some(name), Some(added), Some(description));
    var d := DateTime(2024, 3, 1, 0, 0, 0);
    ShortDateParses();
    assert FormatDate(d) == added;
    SingleVulnerabilityKept(v, "", Some(d), Some(d), d);
  }

  lemma Log4jNotInIdentifier()
    ensures !KeywordIn("log4j", "CVE-2021-44228")
  {
    KeywordMissingLetter("log4j", "CVE-2021-44228", 4);
  }

  lemma Log4jNotInName()
    ensures !KeywordIn("log4j", "Apache Remote Code Execution")
  {
    KeywordMissingLetter("log4j", "Apache Remote Code Execution", 4);
  }

  lemma Log4jInDescription(rest: string)
    ensures KeywordIn("log4j", "Apache " + "Log4j" + rest)
  {
    assert Lower("Log4j") == Lower("log4j");
    KeywordInMiddle("log4j", "Apache ", "Log4j", rest);
  }

  lemma DateAddedOfLog4j()
    ensures ParseDate("2021-12-10") == Some(DateTime(2021, 12, 10, 0, 0, 0))
    ensures FormatDate(DateTime(2021, 12, 10, 0, 0, 0)) == "2021-12-10"
  {
    assert "2021-12-10"[8..] == "10";
  }

  lemma Log4jKeywordTest(cveID: string, name: string, description: string, rest: string)
    requires cveID == "CVE-2021-44228" && name == "Apache Remote Code Execution"
    requires description == "Apache " + "Log4j" + rest
    ensures KeywordTest("log4j", Some(cveID), Some(name), Some(description)) == Done(true)
  {
    Log4jNotInIdentifier();
    Log4jNotInName();
    Log4jInDescription(rest);
  }

  /**
   * The keyword "log4j" against a vulnerability whose identifier and name do
   * not hold it but whose description holds "Log4j": kept.
   */
  lemma Log4jFoundInDescriptionOnly(cveID: string, name: string, added: string, description: string, rest: string)
    requires cveID == "CVE-2021-44228" && name == "Apache Remote Code Execution" && added == "2021-12-10"
    requires description == "Apache " + "Log4j" + rest
    ensures var v := RawVulnerability(Some(cveID), Some(name), Some(added), Some(description));
      FilteredVulnerabilities(Some([v]), "log4j", None, None) ==
      Done([VulnerabilityRecord(Some(cveID), Some(name), added, Some(description))])
  {
    var v := RawVulnerability(Some(cveID), Some(name), Some(added), Some(description));
    Log4jKeywordTest(cveID, name, description, rest);
    DateAddedOfLog4j();
    SingleVulnerabilityKept(v, "log4j", None, None, DateTime(2021, 12, 10, 0, 0, 0));
  }

  // ------------------------------------------------------- filtering twice

  /** A kept record fed back to the filter as a catalogue entry with its fields. */
  function Reread(r: VulnerabilityRecord): RawVulnerability
  {
    RawVulnerability(r.cveID, r.vulnerabilityName, Some(r.dateAdded), r.description)
  }

  function RereadAll(kept: seq<VulnerabilityRecord>): (vs: seq<RawVulnerability>)
    ensures |vs| == |kept| && forall i :: 0 <= i < |kept| ==> vs[i] == Reread(kept[i])
  {
    seq(|kept|, i requires 0 <= i < |kept| => Reread(kept[i]))
  }

  /** A qualifying record read back is kept again, as itself. */
  lemma RereadVerdict(r: VulnerabilityRecord, keyword: string, start: Option<DateTime>, end: Option<DateTime>)
    requires Qualifies(r, keyword, start, end)
    ensures Verdict(Reread(r), keyword, start, end) == Done(Some(r))
  {
    var v := Reread(r);
    KeywordTestMeaning(keyword, v.cveID, v.vulnerabilityName, v.shortDescription);
    if r.dateAdded != "" {
      var d := ParseDate(r.dateAdded).value;
      assert AddedDate(v) == Done(Some(d));
    }
  }

  lemma RescanStep(kept: seq<VulnerabilityRecord>, k: nat, keyword: string,
                   start: Option<DateTime>, end: Option<DateTime>)
    requires 0 < k <= |kept|
    requires forall i :: 0 <= i < |kept| ==> Qualifies(kept[i], keyword, start, end)
    requires ScanVulnerabilities(RereadAll(kept)[..k - 1], keyword, start, end) == Done(kept[..k - 1])
    ensures ScanVulnerabilities(RereadAll(kept)[..k], keyword, start, end) == Done(kept[..k])
  {
    var vs := RereadAll(kept);
    TakeSnoc(kept, k);
    ScanSnoc(vs, k - 1, keyword, start, end);
    RereadVerdict(kept[k - 1], keyword, start, end);
  }

  lemma {:induction false} Rescan(kept: seq<VulnerabilityRecord>, k: nat, keyword: string,
                                  start: Option<DateTime>, end: Option<DateTime>)
    requires k <= |kept|
    requires forall i :: 0 <= i < |kept| ==> Qualifies(kept[i], keyword, start, end)
    ensures ScanVulnerabilities(RereadAll(kept)[..k], keyword, start, end) == Done(kept[..k])
    decreases k
  {
    if k == 0 {
      assert RereadAll(kept)[..0] == [];
      assert kept[..0] == [];
    } else {
      Rescan(kept, k - 1, keyword, start, end);
      RescanStep(kept, k, keyword, start, end);
    }
  }

  /**
   * Filtering the filter's own output again with the same keyword and
   * bounds gives back the same records: for vulnerabilities the filter is
   * idempotent.
   */
  lemma FilterTwice(data: Option<seq<RawVulnerability>>, keyword: string,
                    start: Option<DateTime>, end: Option<DateTime>, kept: seq<VulnerabilityRecord>)
    requires FilteredVulnerabilities(data, keyword, start, end) == Done(kept)
    ensures FilteredVulnerabilities(Some(RereadAll(kept)), keyword, start, end) == Done(kept)
  {
    FilteredVulnerabilitiesQualify(data, keyword, start, end, kept);
    Rescan(kept, |kept|, keyword, start, end);
    assert RereadAll(kept)[..|kept|] == RereadAll(kept);
    assert kept[..|kept|] == kept;
  }
}
