/**
  The issue record the importer sends to GitHub for each Bitbucket issue
  (`issue_data` in `migrate_issues`): the title copied over, the raw body
  followed by a footer naming the original issue number, and a single
  "imported" label.

  The Bitbucket issue is an input, reduced to the three members that are
  read; fetching it and posting the record are outside the model.
 */
module Issues {
  import opened Wrappers
  import opened StringOps

  // ---------------------------------------------------------------------------
  // Data
  // ---------------------------------------------------------------------------

  /** The `raw` member of an issue's `content` object. */
  datatype Raw =
    | RawMissing          // no `raw` member
    | RawText(text: string)
    | RawOther            // present but not a string (null, a number, ...)

  /** The `content` member of a Bitbucket issue. */
  datatype Content =
    | ContentMissing      // no `content` member
    | ContentObject(raw: Raw)
    | ContentOther        // present but not an object (null, a string, ...)

  /**
    A Bitbucket issue as the importer reads it. A missing title or id and
    a null one read the same (`None`), so each is an Option.
   */
  datatype BitbucketIssue = BitbucketIssue(title: Option<string>, content: Content, id: Option<int>)

  /** The record posted to GitHub; a `None` title is sent as null. */
  datatype IssueData = IssueData(title: Option<string>, body: string, labels: seq<string>)

  /** Why building the record raised, which abandons the remaining issues of the repository. */
  datatype BuildError =
    | ContentNotAnObject  // `.get` on a non-object: AttributeError
    | RawNotAString       // a non-string plus a string: TypeError

  const ImportedLabel: string := "imported"

  /** The text placed between the raw body and the original issue id. */
  const FooterLead: string := "\n\nImported from Bitbucket. Original ID: "

  // ---------------------------------------------------------------------------
  // Building the record
  // ---------------------------------------------------------------------------

  /** How the f-string renders the id: its decimal numeral, or "None" when it is missing or null. */
  function IdText(id: Option<int>): (t: string)
    ensures ' ' !in t
  {
    match id
    case None => "None"
    case Some(n) => IntToDecimal(n)
  }

  function Footer(id: Option<int>): string
  {
    FooterLead + IdText(id)
  }

  /** `issue.get("content", {}).get("raw", "")`, or the error it raises. */
  function RawContent(c: Content): Result<string, BuildError>
  {
    match c
    case ContentMissing => Success("")
    case ContentOther => Failure(ContentNotAnObject)
    case ContentObject(RawMissing) => Success("")
    case ContentObject(RawText(t)) => Success(t)
    case ContentObject(RawOther) => Failure(RawNotAString)
  }

  /**
    The record for one issue. It fails exactly when `content` is present
    but not an object, or its `raw` is present but not a string; otherwise
    the title is copied, the labels are exactly ["imported"], and the body
    ends with the footer naming the issue's id.
   */
  function BuildIssueData(issue: BitbucketIssue): (r: Result<IssueData, BuildError>)
    ensures r.Failure? <==> issue.content.ContentOther? || (issue.content.ContentObject? && issue.content.raw.RawOther?)
    ensures r.Success? ==> r.value.title == issue.title && r.value.labels == [ImportedLabel]
    ensures r.Success? ==> EndsWith(r.value.body, Footer(issue.id))
  {
    match RawContent(issue.content)
    case Failure(e) => Failure(e)
    case Success(raw) => Success(IssueData(issue.title, raw + Footer(issue.id), [ImportedLabel]))
  }

  // ---------------------------------------------------------------------------
  // Reading the record back
  // ---------------------------------------------------------------------------

  /** The text after the last space of `s` (all of `s` if it has none). */
  function AfterLastSpace(s: string): (r: string)
    ensures ' ' !in r && EndsWith(s, r)
    ensures |r| < |s| ==> s[|s| - |r| - 1] == ' '
    decreases |s|
  {
    if s == [] || s[|s| - 1] == ' ' then []
    else
      var r := AfterLastSpace(s[..|s| - 1]) + [s[|s| - 1]];
      assert s[|s| - |r|..] == s[..|s| - 1][|s| - |r|..] + [s[|s| - 1]];
      r
  }

  /** Text without spaces that follows a space is what comes after the last space. */
  lemma {:induction false} AfterLastSpaceOf(x: string, y: string)
    requires EndsWith(x, " ") && ' ' !in y
    ensures AfterLastSpace(x + y) == y
    decreases |y|
  {
    var s := x + y;
    if y == [] {
      assert s == x;
    } else {
      var init := y[..|y| - 1];
      assert s[|s| - 1] == y[|y| - 1];
      assert s[..|s| - 1] == x + init;
      assert ' ' !in init by { assert forall k :: 0 <= k < |init| ==> init[k] == y[k]; }
      AfterLastSpaceOf(x, init);
      assert y == init + [y[|y| - 1]];
    }
  }

  /** Reads an id rendered by IdText: "None", a numeral, or a minus sign and a numeral. */
  function ParseIdText(t: string): Option<Option<int>>
  {
    if t == "None" then Some(None)
    else if t != [] && AllDigits(t) then Some(Some(DecimalValue(t)))
    else if |t| > 1 && t[0] == '-' && AllDigits(t[1..]) then Some(Some(-(DecimalValue(t[1..]) as int)))
    else None
  }

  /** The original issue id that a record's body names, read from its footer. */
  function OriginalId(body: string): Option<Option<int>>
  {
    ParseIdText(AfterLastSpace(body))
  }

  /** Rendering an id and reading it back gives the id. */
  lemma IdTextRoundTrip(id: Option<int>)
    ensures ParseIdText(IdText(id)) == Some(id)
  {
    match id
    case None =>
    case Some(n) =>
      if n >= 0 {
        var t := NatToDecimal(n);
        assert t[0] != 'N';
        DecimalRoundTrip(n);
      } else {
        var d := NatToDecimal(-n);
        var t := "-" + d;
        assert t != "None" by { assert t[0] != 'N'; }
        assert !IsDigit(t[0]);
        assert t[1..] == d;
        DecimalRoundTrip(-n);
      }
  }

  /**
    A record built from an issue gives back the issue's id, read from the
    body's footer, and the issue's raw body, by cutting the footer off.
   */
  lemma IssueDataRoundTrip(issue: BitbucketIssue)
    requires BuildIssueData(issue).Success?
    ensures OriginalId(BuildIssueData(issue).value.body) == Some(issue.id)
    ensures var body := BuildIssueData(issue).value.body;
      body[..|body| - |Footer(issue.id)|] == RawContent(issue.content).value
  {
    var raw := RawContent(issue.content).value;
    var body := BuildIssueData(issue).value.body;
    assert body == (raw + FooterLead) + IdText(issue.id);
    AfterLastSpaceOf(raw + FooterLead, IdText(issue.id));
    IdTextRoundTrip(issue.id);
    assert body[..|body| - |Footer(issue.id)|] == raw;
  }
}
