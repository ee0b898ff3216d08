/** Worked inputs for the extractor, each showing one behaviour of the
    patterns on a concrete text. */
module Examples {
  import opened Chars
  import opened Options
  import opened Regex
  import opened PyStr
  import opened TenderExtractor

  /** One attempt of a pattern at `i`, unfolded into its label and group steps. */
  lemma AttemptAt(text: string, i: nat, p: Pattern, j: nat, cs: nat, ce: nat)
    requires i <= |text|
    requires MatchLabel(text, i, p.parts) == Some(j)
    requires j <= |text|
    requires Backtrack(text, p.shape, j, SpanWhile(text, j, Space)) == Some((cs, ce))
    ensures MatchAt(text, i, p) == Some(Match(i, j, cs, ce))
  {
  }

  /** An attempt that succeeds at the start of the text is the search result. */
  lemma FoundAtStart(text: string, p: Pattern, j: nat, cs: nat, ce: nat)
    requires MatchLabel(text, 0, p.parts) == Some(j)
    requires j <= |text|
    requires Backtrack(text, p.shape, j, SpanWhile(text, j, Space)) == Some((cs, ce))
    ensures cs <= ce <= |text| && FindPattern(text, p) == Some(text[cs..ce])
  {
    var m := Match(0, j, cs, ce);
    AttemptAt(text, 0, p, j, cs, ce);
    assert SearchFrom(text, p, 0) == Some(m);
  }

  /** The label of the first contract-value pattern. */
  const ValueLabel := "Value excluding VAT:"

  /** "Value excluding VAT:" followed by a blank and the end of the line. */
  const BlankValueText := "Value excluding VAT: \n"

  /** A text that begins with "Value excluding VAT:" matches the label of the
      first contract-value pattern over its first 20 characters. */
  lemma ValueLabelAtStart(rest: string)
    ensures MatchLabel(ValueLabel + rest, 0, ValueExcludingVat.parts) == Some(20)
  {
    var t := ValueLabel + rest;
    assert t[0..5] == "Value" && t[6..15] == "excluding" && t[16..20] == "VAT:";
    assert WordAt(t, 0, "Value");
    SpanWhileUnique(t, 5, Space, 6);
    assert WordAt(t, 6, "excluding");
    SpanWhileUnique(t, 15, Space, 16);
    assert WordAt(t, 16, "VAT:");
    assert MatchLabel(t, 16, [Word("VAT:")]) == Some(20);
    assert MatchLabel(t, 15, [Blanks, Word("VAT:")]) == Some(20);
    assert MatchLabel(t, 6, [Word("excluding"), Blanks, Word("VAT:")]) == Some(20);
    assert MatchLabel(t, 5, [Blanks, Word("excluding"), Blanks, Word("VAT:")]) == Some(20);
  }

  /** `\s*` first takes " \n", finds no `[^\n]+` after it, gives back the
      newline (still nothing), then the blank: the group is the blank. */
  lemma BlankValueBacktracks()
    ensures Backtrack(BlankValueText, RestOfLine, 20, SpanWhile(BlankValueText, 20, Space)) == Some((20, 21))
  {
    var t := BlankValueText;
    SpanWhileUnique(t, 20, Space, 22);
    SpanWhileUnique(t, 21, NotNewline, 21);
    SpanWhileUnique(t, 20, NotNewline, 21);
    assert CaptureAt(t, 22, RestOfLine) == None;
    assert CaptureAt(t, 21, RestOfLine) == None;
    assert CaptureAt(t, 20, RestOfLine) == Some(21);
    assert Backtrack(t, RestOfLine, 20, 20) == Some((20, 21));
    assert Backtrack(t, RestOfLine, 20, 21) == Some((20, 21));
    assert Backtrack(t, RestOfLine, 20, 22) == Some((20, 21));
  }

  /** The search succeeds at the start of the text and its group is " ". */
  lemma BlankValueGroup()
    ensures FindPattern(BlankValueText, ValueExcludingVat) == Some(" ")
  {
    var t := BlankValueText;
    var p := ValueExcludingVat;
    ValueLabelAtStart(" \n");
    assert t == ValueLabel + " \n";
    BlankValueBacktracks();
    FoundAtStart(t, p, 20, 20, 21);
    assert t[20..21] == " ";
  }

  /** ... and the stripped contract value is the empty string. */
  lemma BlankValueAtEndOfText()
    ensures ExtractContractValue(BlankValueText) == Some("")
  {
    BlankValueGroup();
    assert StripsTo(" ", "", 0);
    StripUnique(" ", "", 0);
    FirstValueLabelDecides(BlankValueText);
  }

  /** The group of "Value excluding VAT: v\n...": `\s*` takes the one blank
      and `[^\n]+` runs to the line break. */
  lemma ValueLineGroup(v: string, rest: string)
    requires |v| > 0 && !IsSpace(v[0]) && '\n' !in v
    ensures var t := ValueLabel + (" " + v + "\n" + rest);
              Backtrack(t, RestOfLine, 20, SpanWhile(t, 20, Space)) == Some((21, 21 + |v|))
              && t[21..21 + |v|] == v
  {
    var t := ValueLabel + (" " + v + "\n" + rest);
    var e := 21 + |v|;
    assert t[20] == ' ' && t[21] == v[0] && t[e] == '\n';
    SpanWhileUnique(t, 20, Space, 21);
    assert AllIn(t, 21, e, NotNewline) by {
      forall k | 21 <= k < e ensures t[k] != '\n' {
        assert t[k] == v[k - 21];
      }
    }
    SpanWhileUnique(t, 21, NotNewline, e);
    assert CaptureAt(t, 21, RestOfLine) == Some(e);
    assert t[21..e] == v;
  }

  /** "Value excluding VAT: v" on a line of its own at the start of the text,
      with `v` not starting with whitespace: the group is exactly `v`. */
  lemma ValueLineAtStart(v: string, rest: string)
    requires |v| > 0 && !IsSpace(v[0]) && '\n' !in v
    ensures FindPattern(ValueLabel + (" " + v + "\n" + rest), ValueExcludingVat) == Some(v)
  {
    var t := ValueLabel + (" " + v + "\n" + rest);
    var p := ValueExcludingVat;
    var e := 21 + |v|;
    ValueLabelAtStart(" " + v + "\n" + rest);
    ValueLineGroup(v, rest);
    FoundAtStart(t, p, 20, 21, e);
  }

  /** The value line of a tender notice, followed by the next line. */
  const NoticeText := ValueLabel + (" " + "1 200 000 EUR" + "\n" + "Time limit for receipt: 15/03/2025")

  /** The group stops at the line break, the first label decides the
      contract value, and the value has nothing to strip. */
  lemma NoticeContractValue()
    ensures ExtractContractValue(NoticeText) == Some("1 200 000 EUR")
  {
    ValueLineAtStart("1 200 000 EUR", "Time limit for receipt: 15/03/2025");
    StripTrimmed("1 200 000 EUR");
    FirstValueLabelDecides(NoticeText);
  }

  /** A label at the end of a line with its value on the next line. */
  const NextLineText := "Contract value:\n5"

  /** `\s*` crosses the line break, so the value is taken from the next line. */
  lemma ValueFromNextLine()
    ensures FindPattern(NextLineText, ContractValue) == Some("5")
  {
    var t := NextLineText;
    var p := ContractValue;
    assert WordAt(t, 0, "Contract");
    SpanWhileUnique(t, 8, Space, 9);
    assert WordAt(t, 9, "value:");
    assert MatchLabel(t, 9, [Word("value:")]) == Some(15);
    assert MatchLabel(t, 8, [Blanks, Word("value:")]) == Some(15);
    assert MatchLabel(t, 0, p.parts) == Some(15);
    SpanWhileUnique(t, 15, Space, 16);
    SpanWhileUnique(t, 16, NotNewline, 17);
    assert CaptureAt(t, 16, RestOfLine) == Some(17);
    assert Backtrack(t, RestOfLine, 15, 16) == Some((16, 17));
    FoundAtStart(t, p, 15, 16, 17);
    assert t[16..17] == "5";
  }

  /** The attempt at `q` fails. */
  ghost predicate Fails(text: string, p: Pattern, q: nat) {
    q <= |text| && MatchAt(text, q, p).None?
  }

  /** When every attempt before `n` fails, the search result (if any)
      starts at `n` or later. */
  lemma NoMatchBefore(text: string, p: Pattern, n: nat)
    requires n <= |text|
    requires forall q :: 0 <= q < n ==> Fails(text, p, q)
    ensures SearchFrom(text, p, 0).None? || SearchFrom(text, p, 0).value.start >= n
  {
    var r := SearchFrom(text, p, 0);
    if r.Some? {
      assert !Fails(text, p, r.value.start);
    }
  }

  /** A successful attempt with no earlier match is the search result. */
  lemma FirstMatchIsResult(text: string, p: Pattern, n: nat, m: Match)
    requires n <= |text| && MatchAt(text, n, p) == Some(m)
    requires SearchFrom(text, p, 0).None? || SearchFrom(text, p, 0).value.start >= n
    ensures Search(text, p) == Some(m)
  {
    var r := SearchFrom(text, p, 0);
    assert r.Some?;
    assert r.value.start == n;
  }

  /** No attempt before `n` matches "Document No" when text[..n] has no
      capital D. */
  lemma NoDocumentBefore(t: string, n: nat)
    requires n <= |t| && 'D' !in t[..n]
    ensures forall q :: 0 <= q < n ==> Fails(t, DocumentNo, q)
  {
    forall q | 0 <= q < n ensures Fails(t, DocumentNo, q) {
      assert t[q] == t[..n][q];
      assert !WordAt(t, q, "Document");
    }
  }

  /** The "Document\s+No:" label spans text[n..n + 12]. */
  lemma DocumentNoLabel(t: string, n: nat)
    requires n + 12 <= |t| && t[n..n + 12] == "Document No:"
    ensures MatchLabel(t, n, DocumentNo.parts) == Some(n + 12)
  {
    var parts := DocumentNo.parts;
    assert parts == [Word("Document"), Blanks, Word("No:")];
    var l := t[n..n + 12];
    assert l[..8] == "Document" && l[8] == ' ' && l[9] == 'N' && l[9..] == "No:";
    assert t[n..n + 8] == l[..8] && t[n + 9..n + 12] == l[9..];
    assert t[n + 8] == l[8] && t[n + 9] == l[9];
    SpanWhileUnique(t, n + 8, Space, n + 9);
    assert MatchLabel(t, n + 9, parts[2..]) == Some(n + 12);
    assert MatchLabel(t, n + 8, parts[1..]) == Some(n + 12);
  }

  /** After the label, `\s*` takes the one blank and `[0-9-]+` the ID, which
      runs to the end of the text. */
  lemma DocumentNoGroup(t: string, n: nat)
    requires n + 14 <= |t| && t[n + 12] == ' '
    requires forall k :: n + 13 <= k < |t| ==> IsAsciiDigit(t[k]) || t[k] == '-'
    ensures Backtrack(t, IdToken, n + 12, SpanWhile(t, n + 12, Space)) == Some((n + 13, |t|))
  {
    SpanWhileUnique(t, n + 12, Space, n + 13);
    SpanWhileUnique(t, n + 13, IdChar, |t|);
  }

  /** "Document No: " at `n`, no successful attempt before it, and an ID
      from there to the end of the text: the search finds that ID. */
  lemma DocumentNoAt(t: string, n: nat)
    requires n + 14 <= |t| && t[n..n + 12] == "Document No:" && t[n + 12] == ' '
    requires forall q :: 0 <= q < n ==> Fails(t, DocumentNo, q)
    requires forall k :: n + 13 <= k < |t| ==> IsAsciiDigit(t[k]) || t[k] == '-'
    ensures FindPattern(t, DocumentNo) == Some(t[n + 13..])
  {
    NoMatchBefore(t, DocumentNo, n);
    DocumentNoLabel(t, n);
    DocumentNoGroup(t, n);
    var m := Match(n, n + 12, n + 13, |t|);
    AttemptAt(t, n, DocumentNo, n + 12, n + 13, |t|);
    FirstMatchIsResult(t, DocumentNo, n, m);
    assert Capture(t, m) == t[n + 13..];
  }

  /** "Document No: id" after a prefix in which no attempt of the pattern
      succeeds, with the ID running to the end of the text: the ID is found. */
  lemma DocumentNoAfter(prefix: string, id: string)
    requires forall q :: 0 <= q < |prefix| ==> Fails(prefix + "Document No: " + id, DocumentNo, q)
    requires |id| > 0 && forall k :: 0 <= k < |id| ==> IsAsciiDigit(id[k]) || id[k] == '-'
    ensures FindPattern(prefix + "Document No: " + id, DocumentNo) == Some(id)
  {
    var t := prefix + "Document No: " + id;
    var n := |prefix|;
    assert t[..n] == prefix && t[n..n + 12] == "Document No:" && t[n + 12] == ' ';
    assert t[n + 13..] == id;
    assert forall k :: n + 13 <= k < |t| ==> t[k] == id[k - n - 13];
    DocumentNoAt(t, n);
  }

  /** A greeting line that starts with a capital D but not with "Document". */
  const Greeting := "Dear sir\n"

  /** "Document No" after a greeting that begins like the label: the attempt
      at the greeting's "D" fails on its second letter, and the ID is found. */
  lemma DocumentNoAfterGreeting()
    ensures FindPattern(Greeting + "Document No: " + "5", DocumentNo) == Some("5")
  {
    var t := Greeting + "Document No: " + "5";
    assert t[1] == 'e';
    assert !WordAt(t, 0, "Document");
    forall q | 0 <= q < |Greeting| ensures Fails(t, DocumentNo, q) {
      if q > 0 {
        assert t[q] == Greeting[q] != 'D';
        assert !WordAt(t, q, "Document");
      }
    }
    DocumentNoAfter(Greeting, "5");
  }

  /** A "Reference number" line before a "Document No" line. */
  const PriorityText := "Reference number: 123\n" + "Document No: " + "9"

  /** The tender ID comes from "Document No" even though "Reference number"
      occurs earlier in the text: label priority, not position, decides. */
  lemma LaterDocumentNoWins()
    ensures ExtractTenderId(PriorityText) == Some("9")
  {
    assert PriorityText[..22] == "Reference number: 123\n";
    NoDocumentBefore(PriorityText, 22);
    DocumentNoAfter("Reference number: 123\n", "9");
    FirstTruthyOfThree(PriorityText, TenderIdPatterns);
  }

  /** An empty text yields no field at all. */
  lemma EmptyTextFindsNothing()
    ensures ExtractAllInformation("") == TenderInfo(None, None, None, None, [])
  {
    assert Search("", DocumentNo).None?;
    assert Search("", ReferenceNumber).None?;
    assert Search("", TenderIdLabel).None?;
    assert Search("", PublicationDate).None?;
    assert Search("", SubmissionDeadline).None?;
    assert Search("", ValueExcludingVat).None?;
    assert Search("", EstimatedValue).None?;
    assert Search("", ContractValue).None?;
    assert Search("", Cpv).None?;
    FirstTruthyOfThree("", TenderIdPatterns);
    FirstTruthyOfThree("", ContractValuePatterns);
  }
}
