/**
 The pure string work around a report export in report-exporter.py: the row filter
 and settings the export request carries (`get_export_id`), the name a downloaded PDF
 is saved under (`download_report`), and the requests `retrieve_business_ids` builds
 from the rows the CSV reader yields.
 */
module ReportExport {
  import opened Wrappers
  import opened Text

  // ---------------------------------------------------------------------------
  // The export request

  const FilterPrefix := "CompanyBasicInfo/business_id_k eq '"
  const FilterSuffix := "'"

  /** The report-level filter selecting one company; the business id is pasted in verbatim. */
  function CompanyFilter(businessId: string): string
  {
    FilterPrefix + businessId + FilterSuffix
  }

  /** The business id a filter selects, when the text has the shape of a company filter. */
  function FilterBusinessId(filter: string): Option<string>
  {
    if |filter| >= |FilterPrefix| + |FilterSuffix|
       && filter[..|FilterPrefix|] == FilterPrefix
       && filter[|filter| - |FilterSuffix|..] == FilterSuffix
    then Some(filter[|FilterPrefix|..|filter| - |FilterSuffix|])
    else None
  }

  /** The filter names exactly the business id it was built from, quotes and all. */
  lemma FilterRoundTrip(businessId: string)
    ensures FilterBusinessId(CompanyFilter(businessId)) == Some(businessId)
  {
    var f := CompanyFilter(businessId);
    assert f[..|FilterPrefix|] == FilterPrefix;
    assert f[|f| - |FilterSuffix|..] == FilterSuffix;
    assert f[|FilterPrefix|..|f| - |FilterSuffix|] == businessId;
  }

  /** Only a company filter reads as one: any text that yields a business id is that id's filter. */
  lemma FilterOnlyFromTemplate(filter: string)
    ensures FilterBusinessId(filter).Some? ==> CompanyFilter(FilterBusinessId(filter).value) == filter
  {
    if FilterBusinessId(filter).Some? {
      var id := FilterBusinessId(filter).value;
      assert filter == filter[..|FilterPrefix|] + id + filter[|filter| - |FilterSuffix|..];
    }
  }

  /** Different business ids never share a filter. */
  lemma CompanyFilterInjective(a: string, b: string)
    ensures CompanyFilter(a) == CompanyFilter(b) ==> a == b
  {
    FilterRoundTrip(a);
    FilterRoundTrip(b);
  }

  /** The body of the export request: PDF output, one company filter, and the report locale. */
  datatype ExportRequest = ExportRequest(format: string, filters: seq<string>, locale: string)

  function ExportBody(businessId: string, language: string): (r: ExportRequest)
    ensures r.format == "PDF" && r.locale == language
    ensures |r.filters| == 1 && FilterBusinessId(r.filters[0]) == Some(businessId)
  {
    FilterRoundTrip(businessId);
    ExportRequest("PDF", [CompanyFilter(businessId)], language)
  }

  // ---------------------------------------------------------------------------
  // The downloaded file

  /** The name the exported PDF is saved under in `downloaded_reports`. */
  function ReportFileName(businessId: string, language: string): string
  {
    businessId + "_" + language + ".pdf"
  }

  /** The business id a file name belongs to, for a known language. */
  function BusinessIdOfFileName(name: string, language: string): Option<string>
  {
    var tail := "_" + language + ".pdf";
    if |name| >= |tail| && name[|name| - |tail|..] == tail then Some(name[..|name| - |tail|]) else None
  }

  /** For a given language the file name gives back the business id, verbatim. */
  lemma FileNameRoundTrip(businessId: string, language: string)
    ensures BusinessIdOfFileName(ReportFileName(businessId, language), language) == Some(businessId)
  {
    var name := ReportFileName(businessId, language);
    var tail := "_" + language + ".pdf";
    assert name == businessId + tail;
    assert name[|name| - |tail|..] == tail;
    assert name[..|name| - |tail|] == businessId;
  }

  /** Any name that yields a business id for a language is that id's file name. */
  lemma FileNameOnlyFromTemplate(name: string, language: string)
    ensures BusinessIdOfFileName(name, language).Some? ==>
              ReportFileName(BusinessIdOfFileName(name, language).value, language) == name
  {
    var tail := "_" + language + ".pdf";
    if BusinessIdOfFileName(name, language).Some? {
      assert name == name[..|name| - |tail|] + name[|name| - |tail|..];
    }
  }

  /** Within one language, two companies never share a file name. */
  lemma FileNameInjective(a: string, b: string, language: string)
    ensures ReportFileName(a, language) == ReportFileName(b, language) ==> a == b
  {
    FileNameRoundTrip(a, language);
    FileNameRoundTrip(b, language);
  }

  /** The request and the file it is saved to name the same company. */
  lemma RequestMatchesFile(businessId: string, language: string)
    ensures FilterBusinessId(ExportBody(businessId, language).filters[0])
            == BusinessIdOfFileName(ReportFileName(businessId, language), language)
            == Some(businessId)
  {
    FileNameRoundTrip(businessId, language);
  }

  /** Across languages the name alone does not tell the id: an underscore can sit on either side. */
  lemma FileNameAmbiguousAcrossLanguages()
    ensures ReportFileName("a_b", "fi-FI") == ReportFileName("a", "b_fi-FI")
  {
  }

  // ---------------------------------------------------------------------------
  // Business ids from the CSV rows

  /** One report to export: a company and the language of its report. */
  datatype ReportRequest = ReportRequest(businessId: string, language: string)

  /** Only Finnish reports are exported. */
  const ReportLanguage := "fi-FI"

  /** The business id of one CSV row: its fields joined with `", "`, then whitespace-stripped. */
  function RowBusinessId(row: seq<string>): string
  {
    Strip(JoinWith(row, ", "), Whitespace)
  }

  /**
   The id is the joined row with only whitespace cut from its ends: it neither starts
   nor ends with whitespace, sits at `StripOffset` inside the joined text, and every
   character cut off is whitespace.
   */
  lemma RowBusinessIdSpec(row: seq<string>)
    ensures var id := RowBusinessId(row);
            var joined := JoinWith(row, ", ");
            var a := StripOffset(joined, Whitespace);
            && (|id| == 0 || (id[0] !in Whitespace && id[|id| - 1] !in Whitespace))
            && a + |id| <= |joined|
            && (forall i :: 0 <= i < |id| ==> id[i] == joined[a + i])
            && (forall i :: 0 <= i < a ==> joined[i] in Whitespace)
            && (forall i :: a + |id| <= i < |joined| ==> joined[i] in Whitespace)
  {
    StripSpec(JoinWith(row, ", "), Whitespace);
  }

  /** An empty row gives the empty id. */
  lemma EmptyRowBusinessId()
    ensures RowBusinessId([]) == ""
  {
    StripClean("", Whitespace);
  }

  /** A one-field row without surrounding whitespace gives that field verbatim. */
  lemma SingleFieldBusinessId(field: string)
    requires |field| == 0 || (field[0] !in Whitespace && field[|field| - 1] !in Whitespace)
    ensures RowBusinessId([field]) == field
  {
    StripClean(field, Whitespace);
  }

  /** Two fields are joined with a comma and a space between them. */
  lemma TwoFieldBusinessId(a: string, b: string)
    requires |a| > 0 && a[0] !in Whitespace && |b| > 0 && b[|b| - 1] !in Whitespace
    ensures RowBusinessId([a, b]) == a + ", " + b
  {
    var s := a + ", " + b;
    assert JoinWith([a, b], ", ") == s;
    assert s[0] == a[0] && s[|s| - 1] == b[|b| - 1];
    StripClean(s, Whitespace);
  }

  /** `retrieve_business_ids` over the rows the CSV reader yields: one Finnish request per row, in order. */
  method RetrieveBusinessIds(rows: seq<seq<string>>) returns (entries: seq<ReportRequest>)
    ensures |entries| == |rows|
    ensures forall i :: 0 <= i < |rows| ==>
              entries[i].language == ReportLanguage && entries[i].businessId == RowBusinessId(rows[i])
  {
    entries := [];
    var k := 0;
    while k < |rows|
      invariant 0 <= k <= |rows|
      invariant |entries| == k
      invariant forall i :: 0 <= i < k ==>
                  entries[i].language == ReportLanguage && entries[i].businessId == RowBusinessId(rows[i])
    {
      var id := RowBusinessId(rows[k]);
      entries := entries + [ReportRequest(id, ReportLanguage)];
      k := k + 1;
    }
  }
}
