/** The field extractor of `TenderPDFProcessor`: the document text is the
    input, each field is a `re.search` (or, for CPV codes, `re.findall`) of
    fixed patterns, and single-value fields try their patterns in a fixed
    priority order. */
module TenderExtractor {
  import opened Chars
  import opened Options
  import opened Regex
  import opened PyStr

  // ---------------------------------------------------------------------------
  // The patterns
  // ---------------------------------------------------------------------------

  /** Document\s+No:\s*([0-9-]+) */
  const DocumentNo := Pattern([Word("Document"), Blanks, Word("No:")], IdToken)
  /** Reference\s+number:\s*([0-9-]+) */
  const ReferenceNumber := Pattern([Word("Reference"), Blanks, Word("number:")], IdToken)
  /** Tender\s+ID:\s*([0-9-]+) */
  const TenderIdLabel := Pattern([Word("Tender"), Blanks, Word("ID:")], IdToken)
  const TenderIdPatterns := [DocumentNo, ReferenceNumber, TenderIdLabel]

  /** Date of publication:\s*(\d{2}/\d{2}/\d{4}) */
  const PublicationDate := Pattern([Word("Date of publication:")], Date)
  /** Time limit[^:]*:\s*(\d{2}/\d{2}/\d{4}) */
  const SubmissionDeadline := Pattern([Word("Time limit"), UpToColon], Date)

  /** Value\s+excluding\s+VAT:\s*([^\n]+) */
  const ValueExcludingVat :=
    Pattern([Word("Value"), Blanks, Word("excluding"), Blanks, Word("VAT:")], RestOfLine)
  /** Estimated\s+value:\s*([^\n]+) */
  const EstimatedValue := Pattern([Word("Estimated"), Blanks, Word("value:")], RestOfLine)
  /** Contract\s+value:\s*([^\n]+) */
  const ContractValue := Pattern([Word("Contract"), Blanks, Word("value:")], RestOfLine)
  const ContractValuePatterns := [ValueExcludingVat, EstimatedValue, ContractValue]

  /** CPV[^:]*:\s*(\d{8}[-\d]*) */
  const Cpv := Pattern([Word("CPV"), UpToColon], CpvCode)

  /** The extraction result: the dictionary `extract_all_information` returns. */
  datatype TenderInfo = TenderInfo(
    tenderId: Option<string>,
    publicationDate: Option<string>,
    submissionDeadline: Option<string>,
    contractValue: Option<string>,
    cpvCodes: seq<string>)

  /** The dictionary `extract_dates` returns. */
  datatype Dates = Dates(publicationDate: Option<string>, submissionDeadline: Option<string>)

  // ---------------------------------------------------------------------------
  // Extractors
  // ---------------------------------------------------------------------------

  /** Python truthiness of an `Optional[str]`: present and non-empty. */
  predicate Truthy(r: Option<string>) {
    r.Some? && r.value != ""
  }

  /** `_find_pattern`: group 1 of `re.search(pattern, text)`, or None. */
  function FindPattern(text: string, p: Pattern): (r: Option<string>)
    ensures r.Some? ==> |r.value| > 0
  {
    match Search(text, p)
    case None => None
    case Some(m) => Some(Capture(text, m))
  }

  /** The fallback chain: the first pattern, in list order, whose search
      result is truthy supplies the value; later patterns are ignored even if
      they match earlier in the text. */
  function FirstTruthy(text: string, patterns: seq<Pattern>): (r: Option<string>)
    ensures r.None? <==> forall k :: 0 <= k < |patterns| ==> !Truthy(FindPattern(text, patterns[k]))
    ensures forall k :: 0 <= k < |patterns| && Truthy(FindPattern(text, patterns[k]))
                        && (forall k' :: 0 <= k' < k ==> !Truthy(FindPattern(text, patterns[k'])))
                        ==> r == FindPattern(text, patterns[k])
    ensures r.Some? ==> exists k :: 0 <= k < |patterns| && r == FindPattern(text, patterns[k])
  {
    if |patterns| == 0 then None
    else
      var here := FindPattern(text, patterns[0]);
      if Truthy(here) then here
      else
        var r := FirstTruthy(text, patterns[1..]);
        assert forall k :: 1 <= k < |patterns| ==> patterns[1..][k - 1] == patterns[k];
        r
  }

  /** `extract_tender_id`: a returned ID is a non-empty run of digits and
      hyphens, whichever of the three labels supplied it. */
  function ExtractTenderId(text: string): (r: Option<string>)
    ensures r.Some? ==> IsIdToken(r.value)
  {
    IdCapture(text, DocumentNo);
    IdCapture(text, ReferenceNumber);
    IdCapture(text, TenderIdLabel);
    FirstTruthyOfThree(text, TenderIdPatterns);
    FirstTruthy(text, TenderIdPatterns)
  }

  /** `extract_dates`: the two dates are searched for independently. */
  function ExtractDates(text: string): (r: Dates)
    ensures r.publicationDate.Some? ==> IsDate(r.publicationDate.value)
    ensures r.submissionDeadline.Some? ==> IsDate(r.submissionDeadline.value)
  {
    var pub := FindPattern(text, PublicationDate);
    var deadline := FindPattern(text, SubmissionDeadline);
    DateCapture(text, PublicationDate);
    DateCapture(text, SubmissionDeadline);
    Dates(pub, deadline)
  }

  /** `extract_contract_value`: the stripped value of the fallback chain. */
  function ExtractContractValue(text: string): (r: Option<string>)
    ensures r.Some? ==> Trimmed(r.value) && '\n' !in r.value
  {
    match FirstTruthy(text, ContractValuePatterns)
    case None => None
    case Some(v) =>
      ValueCaptureHasNoNewline(text);
      assert '\n' !in Strip(v) by {
        if '\n' in Strip(v) { StripChars(v, '\n'); }
      }
      Some(Strip(v))
  }

  /** `extract_cpv_codes`: every CPV code, in document order. */
  function ExtractCpvCodes(text: string): (r: seq<string>)
    ensures forall k :: 0 <= k < |r| ==> IsCpvCode(r[k])
  {
    FindAll(text, Cpv)
  }

  /** `extract_all_information`: each field is its own extractor's result;
      nothing is cross-checked between fields. */
  function ExtractAllInformation(text: string): (r: TenderInfo)
    ensures r.tenderId == ExtractTenderId(text)
    ensures r.publicationDate == ExtractDates(text).publicationDate
    ensures r.submissionDeadline == ExtractDates(text).submissionDeadline
    ensures r.contractValue == ExtractContractValue(text)
    ensures r.cpvCodes == ExtractCpvCodes(text)
    ensures r.tenderId.Some? ==> IsIdToken(r.tenderId.value)
    ensures r.publicationDate.Some? ==> IsDate(r.publicationDate.value)
    ensures r.submissionDeadline.Some? ==> IsDate(r.submissionDeadline.value)
    ensures r.contractValue.Some? ==> Trimmed(r.contractValue.value) && '\n' !in r.contractValue.value
    ensures forall k :: 0 <= k < |r.cpvCodes| ==> IsCpvCode(r.cpvCodes[k])
  {
    var dates := ExtractDates(text);
    TenderInfo(
      ExtractTenderId(text),
      dates.publicationDate,
      dates.submissionDeadline,
      ExtractContractValue(text),
      ExtractCpvCodes(text))
  }

  // ---------------------------------------------------------------------------
  // Shapes of the extracted values
  // ---------------------------------------------------------------------------

  /** A non-empty run of ASCII digits and hyphens. */
  predicate IsIdToken(v: string) {
    |v| > 0 && forall k :: 0 <= k < |v| ==> IsAsciiDigit(v[k]) || v[k] == '-'
  }

  /** Exactly `dd/dd/dddd`; no calendar check. */
  predicate IsDate(v: string) {
    |v| == 10 && IsDateAt(v, 0)
  }

  /** Eight digits followed only by digits and hyphens. */
  predicate IsCpvCode(v: string) {
    && |v| >= 8
    && (forall k :: 0 <= k < 8 ==> IsDecimal(v[k]))
    && (forall k :: 8 <= k < |v| ==> IsDecimal(v[k]) || v[k] == '-')
  }

  lemma PatternsWellFormed()
    ensures WellFormed(DocumentNo) && WellFormed(ReferenceNumber) && WellFormed(TenderIdLabel)
    ensures WellFormed(PublicationDate) && WellFormed(SubmissionDeadline)
    ensures WellFormed(ValueExcludingVat) && WellFormed(EstimatedValue) && WellFormed(ContractValue)
    ensures WellFormed(Cpv)
  {
    IdPatternsWellFormed();
    ValuePatternsWellFormed();
  }

  lemma IdPatternsWellFormed()
    ensures WellFormed(DocumentNo) && WellFormed(ReferenceNumber) && WellFormed(TenderIdLabel)
  {
  }

  lemma ValuePatternsWellFormed()
    ensures WellFormed(ValueExcludingVat) && WellFormed(EstimatedValue) && WellFormed(ContractValue)
  {
  }

  /** `_find_pattern` is `re.search`: it returns group 1 of the leftmost
      match Python reports, and None exactly when the pattern occurs nowhere. */
  lemma FindPatternCorrect(text: string, p: Pattern)
    requires WellFormed(p)
    ensures FindPattern(text, p).None? <==> Absent(text, p)
    ensures Decides(text, p, FindPattern(text, p))
    ensures FindPattern(text, p).Some? ==>
              exists m: Match :: Leftmost(text, p, 0, m) && FindPattern(text, p) == Some(Capture(text, m))
  {
    SearchCorrect(text, p, 0);
    if Search(text, p).Some? {
      var m := Search(text, p).value;
      assert Leftmost(text, p, 0, m);
    }
  }

  /** A found value is group 1 of a match, so it is in the language of the
      pattern's group. */
  lemma FoundInShape(text: string, p: Pattern)
    ensures FindPattern(text, p).Some? ==>
              var v := FindPattern(text, p).value; InShape(v, 0, |v|, p.shape)
  {
    if Search(text, p).Some? {
      var m := Search(text, p).value;
      MatchAtInShape(text, m.start, p, m);
      CaptureInShape(text, m, p.shape);
    }
  }

  lemma DateCapture(text: string, p: Pattern)
    requires p.shape == Date
    ensures FindPattern(text, p).Some? ==> IsDate(FindPattern(text, p).value)
  {
    FoundInShape(text, p);
  }

  lemma IdCapture(text: string, p: Pattern)
    requires p.shape == IdToken
    ensures FindPattern(text, p).Some? ==> IsIdToken(FindPattern(text, p).value)
  {
    FoundInShape(text, p);
  }

  lemma LineCapture(text: string, p: Pattern)
    requires p.shape == RestOfLine
    ensures FindPattern(text, p).Some? ==> '\n' !in FindPattern(text, p).value
  {
    FoundInShape(text, p);
    if FindPattern(text, p).Some? {
      var v := FindPattern(text, p).value;
      assert AllIn(v, 0, |v|, NotNewline);
    }
  }

  /** No contract-value pattern captures a newline. */
  lemma ValueCaptureHasNoNewline(text: string)
    ensures forall k :: 0 <= k < |ContractValuePatterns| ==>
              FindPattern(text, ContractValuePatterns[k]).Some? ==>
                '\n' !in FindPattern(text, ContractValuePatterns[k]).value
  {
    LineCapture(text, ValueExcludingVat);
    LineCapture(text, EstimatedValue);
    LineCapture(text, ContractValue);
  }

  /** The pattern occurs nowhere in the text. */
  ghost predicate Absent(text: string, p: Pattern) {
    forall m: Match :: !Occurs(text, p, m)
  }

  /** `r` is group 1 of the leftmost match of `p`, whichever it is. */
  ghost predicate Decides(text: string, p: Pattern, r: Option<string>) {
    forall m: Match :: Leftmost(text, p, 0, m) ==> r == Some(Capture(text, m))
  }

  /** A three-pattern fallback chain is decided by the first pattern that
      occurs anywhere in the text, whatever the positions of the others. */
  lemma ChainPriority(text: string, pats: seq<Pattern>)
    requires |pats| == 3
    requires WellFormed(pats[0]) && WellFormed(pats[1]) && WellFormed(pats[2])
    ensures Decides(text, pats[0], FirstTruthy(text, pats))
    ensures Absent(text, pats[0]) ==> Decides(text, pats[1], FirstTruthy(text, pats))
    ensures Absent(text, pats[0]) && Absent(text, pats[1]) ==>
              Decides(text, pats[2], FirstTruthy(text, pats))
    ensures FirstTruthy(text, pats).None? <==>
              Absent(text, pats[0]) && Absent(text, pats[1]) && Absent(text, pats[2])
  {
    FirstTruthyOfThree(text, pats);
    FindPatternCorrect(text, pats[0]);
    FindPatternCorrect(text, pats[1]);
    FindPatternCorrect(text, pats[2]);
  }

  /** The chain over three patterns, unrolled. */
  lemma FirstTruthyOfThree(text: string, pats: seq<Pattern>)
    requires |pats| == 3
    ensures FirstTruthy(text, pats) ==
              if FindPattern(text, pats[0]).Some? then FindPattern(text, pats[0])
              else if FindPattern(text, pats[1]).Some? then FindPattern(text, pats[1])
              else FindPattern(text, pats[2])
  {
    assert pats[1..][0] == pats[1] && pats[1..][1..][0] == pats[2];
    assert |pats[1..][1..][1..]| == 0;
  }

  /** Tender ID priority: a "Document No" match decides the ID wherever the
      other labels occur; "Reference number" decides only when "Document No"
      occurs nowhere, and "Tender ID" only when neither earlier label occurs.
      With no label at all the ID is None. */
  lemma TenderIdPriority(text: string)
    ensures forall m: Match :: Leftmost(text, DocumentNo, 0, m) ==>
              ExtractTenderId(text) == Some(Capture(text, m))
    ensures (forall m: Match :: !Occurs(text, DocumentNo, m)) ==>
              forall m: Match :: Leftmost(text, ReferenceNumber, 0, m) ==>
                ExtractTenderId(text) == Some(Capture(text, m))
    ensures (forall m: Match :: !Occurs(text, DocumentNo, m) && !Occurs(text, ReferenceNumber, m)) ==>
              forall m: Match :: Leftmost(text, TenderIdLabel, 0, m) ==>
                ExtractTenderId(text) == Some(Capture(text, m))
    ensures ExtractTenderId(text).None? <==>
              forall m: Match :: !Occurs(text, DocumentNo, m) && !Occurs(text, ReferenceNumber, m)
                                 && !Occurs(text, TenderIdLabel, m)
  {
    PatternsWellFormed();
    ChainPriority(text, TenderIdPatterns);
  }

  /** `v` is group 1 of the leftmost match of `p`, and that group cannot be
      extended by another digit or hyphen. */
  ghost predicate MaximalIdMatch(text: string, p: Pattern, v: string) {
    exists m: Match ::
      && Leftmost(text, p, 0, m)
      && v == Capture(text, m)
      && (m.capEnd == |text| || !(IsAsciiDigit(text[m.capEnd]) || text[m.capEnd] == '-'))
  }

  /** The group of a found ID token is the longest run of digits and hyphens
      at its position. */
  lemma IdTokenIsMaximalRun(text: string, p: Pattern)
    requires WellFormed(p) && p.shape == IdToken
    ensures FindPattern(text, p).Some? ==> MaximalIdMatch(text, p, FindPattern(text, p).value)
  {
    FindPatternCorrect(text, p);
    if FindPattern(text, p).Some? {
      var m: Match :| Leftmost(text, p, 0, m) && FindPattern(text, p) == Some(Capture(text, m));
      GroupIsMaximal(text, p, m.start, m);
    }
  }

  /** A returned tender ID is group 1 of the reported match of one of the
      three labels, and the longest run of digits and hyphens there. */
  lemma TenderIdIsMaximalRun(text: string)
    ensures ExtractTenderId(text).Some? ==>
              || MaximalIdMatch(text, DocumentNo, ExtractTenderId(text).value)
              || MaximalIdMatch(text, ReferenceNumber, ExtractTenderId(text).value)
              || MaximalIdMatch(text, TenderIdLabel, ExtractTenderId(text).value)
  {
    PatternsWellFormed();
    FirstTruthyOfThree(text, TenderIdPatterns);
    IdTokenIsMaximalRun(text, DocumentNo);
    IdTokenIsMaximalRun(text, ReferenceNumber);
    IdTokenIsMaximalRun(text, TenderIdLabel);
  }

  /** The contract value follows the same priority as the tender ID over its
      three labels, and is the stripped group of the deciding match. */
  lemma ContractValuePriority(text: string)
    ensures forall m: Match :: Leftmost(text, ValueExcludingVat, 0, m) ==>
              ExtractContractValue(text) == Some(Strip(Capture(text, m)))
    ensures (forall m: Match :: !Occurs(text, ValueExcludingVat, m)) ==>
              forall m: Match :: Leftmost(text, EstimatedValue, 0, m) ==>
                ExtractContractValue(text) == Some(Strip(Capture(text, m)))
    ensures (forall m: Match :: !Occurs(text, ValueExcludingVat, m) && !Occurs(text, EstimatedValue, m)) ==>
              forall m: Match :: Leftmost(text, ContractValue, 0, m) ==>
                ExtractContractValue(text) == Some(Strip(Capture(text, m)))
    ensures ExtractContractValue(text).None? <==>
              forall m: Match :: !Occurs(text, ValueExcludingVat, m) && !Occurs(text, EstimatedValue, m)
                                 && !Occurs(text, ContractValue, m)
  {
    PatternsWellFormed();
    ChainPriority(text, ContractValuePatterns);
    var chain := FirstTruthy(text, ContractValuePatterns);
    assert ExtractContractValue(text) == if chain.Some? then Some(Strip(chain.value)) else None;
  }

  /** Whatever "Value excluding VAT" captures decides the contract value, even
      a whitespace-only group: it is truthy before stripping, so the later
      labels are never consulted and the value is the stripped group, possibly
      the empty string. */
  lemma FirstValueLabelDecides(text: string)
    requires FindPattern(text, ValueExcludingVat).Some?
    ensures ExtractContractValue(text) == Some(Strip(FindPattern(text, ValueExcludingVat).value))
  {
    FirstTruthyOfThree(text, ContractValuePatterns);
  }

  /** Each date is the group of its own pattern's leftmost match, and None
      exactly when its own pattern occurs nowhere; neither date depends on
      the other's pattern. */
  lemma DatesFound(text: string)
    ensures forall m: Match :: Leftmost(text, PublicationDate, 0, m) ==>
              ExtractDates(text).publicationDate == Some(Capture(text, m))
    ensures ExtractDates(text).publicationDate.None? <==>
              forall m: Match :: !Occurs(text, PublicationDate, m)
    ensures forall m: Match :: Leftmost(text, SubmissionDeadline, 0, m) ==>
              ExtractDates(text).submissionDeadline == Some(Capture(text, m))
    ensures ExtractDates(text).submissionDeadline.None? <==>
              forall m: Match :: !Occurs(text, SubmissionDeadline, m)
  {
    PatternsWellFormed();
    FindPatternCorrect(text, PublicationDate);
    FindPatternCorrect(text, SubmissionDeadline);
  }

  /** The CPV codes are the groups of `re.findall`'s walk over the text, one
      per non-overlapping match in document order (duplicates kept): given
      any sequence of matches that is that walk, the codes are its groups. */
  lemma CpvCodesFound(text: string, ms: seq<Match>)
    requires FindAllSpec(text, Cpv, 0, ms)
    ensures |ExtractCpvCodes(text)| == |ms|
    ensures forall k :: 0 <= k < |ms| ==>
              && ms[k].capStart <= ms[k].capEnd <= |text|
              && ExtractCpvCodes(text)[k] == Capture(text, ms[k])
  {
    PatternsWellFormed();
    var found := FindAllFrom(text, Cpv, 0);
    FindAllCorrect(text, Cpv, 0);
    FindAllSpecUnique(text, Cpv, 0, ms, found);
  }

  /** There are no CPV codes exactly when the pattern occurs nowhere. */
  lemma CpvCodesEmpty(text: string)
    ensures ExtractCpvCodes(text) == [] <==> forall m: Match :: !Occurs(text, Cpv, m)
  {
    PatternsWellFormed();
    SearchCorrect(text, Cpv, 0);
    var found := FindAllFrom(text, Cpv, 0);
    assert |ExtractCpvCodes(text)| == |found|;
  }
}
