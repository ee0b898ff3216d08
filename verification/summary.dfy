/** `get_text_summary`: an extractive summary made of the leading
    period-separated fragments of the text, kept while their raw lengths fit
    a character budget. */
module Summary {
  import opened PyStr

  /** Sum of the lengths of the fragments. */
  function Total(frags: seq<string>): nat {
    if |frags| == 0 then 0 else |frags[0]| + Total(frags[1..])
  }

  /** Each fragment passed through `str.strip()`. */
  function StripAll(frags: seq<string>): (r: seq<string>)
    ensures |r| == |frags|
  {
    seq(|frags|, k requires 0 <= k < |frags| => Strip(frags[k]))
  }

  /** Sum of the lengths of the first `n` fragments: the running length the
      loop keeps. It adds the fragments from the back, as the loop does, so
      each step of the loop is one unfolding; `Total` adds them from the
      front, which suits splitting a sequence in two (`TotalAppend`,
      `TotalSplit`). `PrefixTotalIsTotal` shows the two agree. */
  function PrefixTotal(frags: seq<string>, n: nat): nat
    requires n <= |frags|
  {
    if n == 0 then 0 else PrefixTotal(frags, n - 1) + |frags[n - 1]|
  }

  /** The loop's stopping rule: the first `k` fragments are kept because each,
      when reached, still fitted the budget together with those before it,
      and fragment `k` (if there is one) is the first that did not. */
  ghost predicate StopsAt(frags: seq<string>, maxLength: int, k: nat) {
    && k <= |frags|
    && (forall n :: 0 < n <= k ==> PrefixTotal(frags, n) <= maxLength)
    && (k < |frags| ==> PrefixTotal(frags, k + 1) > maxLength)
  }

  /** The text ends with a period that does not follow another period. */
  predicate EndsWithOnePeriod(s: string) {
    |s| >= 1 && s[|s| - 1] == '.' && (|s| == 1 || s[|s| - 2] != '.')
  }

  /** `text.split('.')`: the fragments the summary is taken from. */
  function Sentences(text: string): seq<string> {
    Split(text, '.')
  }

  /** `get_text_summary(max_length)`. */
  method GetTextSummary(text: string, maxLength: int) returns (r: string)
    ensures text == "" ==> r == ""
    ensures text != "" ==>
              exists k: nat ::
                && StopsAt(Sentences(text), maxLength, k)
                && r == Join(StripAll(Sentences(text)[..k]), ". ") + "."
                && (maxLength >= 0 ==> PrefixTotal(Sentences(text), k) <= maxLength)
    ensures text != "" ==> EndsWithOnePeriod(r)
  {
    if |text| == 0 {
      return "";
    }
    var sentences := Sentences(text);
    var summary, i := KeepWhileFits(sentences, maxLength);
    r := Join(summary, ". ") + ".";
    SummaryAt(text, maxLength, i, summary, r);
  }

  /** The loop of `get_text_summary`: walks the fragments in order, keeping
      each stripped while the running raw length stays within the budget, and
      stops at the first that does not fit. */
  method KeepWhileFits(sentences: seq<string>, maxLength: int) returns (summary: seq<string>, i: nat)
    ensures StopsAt(sentences, maxLength, i)
    ensures summary == StripAll(sentences[..i])
  {
    summary := [];
    var current := 0;
    i := 0;
    while i < |sentences|
      invariant 0 <= i <= |sentences|
      invariant summary == StripAll(sentences[..i])
      invariant current == PrefixTotal(sentences, i)
      invariant forall n :: 0 < n <= i ==> PrefixTotal(sentences, n) <= maxLength
    {
      KeepNext(sentences, i);
      if current + |sentences[i]| > maxLength {
        break;
      }
      summary := summary + [Strip(sentences[i])];
      current := current + |sentences[i]|;
      i := i + 1;
    }
  }

  /** The loop's exit state gives `GetTextSummary`'s postcondition. */
  lemma SummaryAt(text: string, maxLength: int, i: nat, summary: seq<string>, r: string)
    requires StopsAt(Sentences(text), maxLength, i)
    requires summary == StripAll(Sentences(text)[..i])
    requires r == Join(summary, ". ") + "."
    ensures exists k: nat ::
              && StopsAt(Sentences(text), maxLength, k)
              && r == Join(StripAll(Sentences(text)[..k]), ". ") + "."
              && (maxLength >= 0 ==> PrefixTotal(Sentences(text), k) <= maxLength)
    ensures EndsWithOnePeriod(r)
  {
    SummaryOfKept(Sentences(text), maxLength, i);
  }

  /** `get_text_summary()` with the default budget of 500 characters, the
      call the web front end and the demo make: a text of at most 500
      characters is summarized from all its fragments. */
  method GetDefaultTextSummary(text: string) returns (r: string)
    ensures text == "" ==> r == ""
    ensures text != "" ==>
              exists k: nat ::
                && StopsAt(Sentences(text), 500, k)
                && r == Join(StripAll(Sentences(text)[..k]), ". ") + "."
                && PrefixTotal(Sentences(text), k) <= 500
    ensures text != "" && |text| <= 500 ==> r == Join(StripAll(Sentences(text)), ". ") + "."
  {
    r := GetTextSummary(text, 500);
    if text != "" && |text| <= 500 {
      var frags := Sentences(text);
      ghost var k: nat :| StopsAt(frags, 500, k) && r == Join(StripAll(frags[..k]), ". ") + ".";
      ShortTextKeepsAll(text, 500);
      StopsAtUnique(frags, 500, k, |frags|);
      assert frags[..k] == frags;
    }
  }

  /** What a stopping point gives the returned text: it ends with the one
      period the source appends, and a non-negative budget bounds the raw
      length of the kept fragments. */
  lemma SummaryOfKept(frags: seq<string>, maxLength: int, k: nat)
    requires StopsAt(frags, maxLength, k)
    requires forall j :: 0 <= j < |frags| ==> '.' !in frags[j]
    ensures EndsWithOnePeriod(Join(StripAll(frags[..k]), ". ") + ".")
    ensures maxLength >= 0 ==> PrefixTotal(frags, k) <= maxLength
  {
    SummaryPartsPeriodFree(frags[..k]);
    JoinNoTrailingPeriod(StripAll(frags[..k]));
    if k == 0 {
      assert frags[..k] == [];
    }
  }

  /** Keeping fragment `i` extends the kept prefix by it. */
  lemma KeepNext(frags: seq<string>, i: nat)
    requires i < |frags|
    ensures PrefixTotal(frags, i + 1) == PrefixTotal(frags, i) + |frags[i]|
    ensures StripAll(frags[..i + 1]) == StripAll(frags[..i]) + [Strip(frags[i])]
  {
    assert frags[..i + 1] == frags[..i] + [frags[i]];
  }

  /** The running length of the first `n` fragments is the total of that
      prefix. */
  lemma {:induction false} PrefixTotalIsTotal(frags: seq<string>, n: nat)
    requires n <= |frags|
    ensures PrefixTotal(frags, n) == Total(frags[..n])
  {
    if n > 0 {
      PrefixTotalIsTotal(frags, n - 1);
      assert frags[..n] == frags[..n - 1] + [frags[n - 1]];
      TotalSnoc(frags[..n - 1], frags[n - 1]);
    }
  }

  /** Adding one fragment adds its length. */
  lemma {:induction false} TotalSnoc(frags: seq<string>, f: string)
    ensures Total(frags + [f]) == Total(frags) + |f|
  {
    if |frags| > 0 {
      assert (frags + [f])[1..] == frags[1..] + [f];
      TotalSnoc(frags[1..], f);
    }
  }

  /** The total of a concatenation is the sum of the totals. */
  lemma {:induction false} TotalAppend(a: seq<string>, b: seq<string>)
    ensures Total(a + b) == Total(a) + Total(b)
  {
    if |a| == 0 {
      assert a + b == b;
    } else {
      assert (a + b)[1..] == a[1..] + b;
      TotalAppend(a[1..], b);
    }
  }

  /** The stripped fragments of a split on '.' contain no period. */
  lemma SummaryPartsPeriodFree(frags: seq<string>)
    requires forall k :: 0 <= k < |frags| ==> '.' !in frags[k]
    ensures forall k :: 0 <= k < |frags| ==> '.' !in StripAll(frags)[k]
  {
    forall k | 0 <= k < |frags| ensures '.' !in StripAll(frags)[k] {
      if '.' in Strip(frags[k]) {
        StripChars(frags[k], '.');
      }
    }
  }

  /** The stopping point is determined by the fragments and the budget. */
  lemma StopsAtUnique(frags: seq<string>, maxLength: int, k1: nat, k2: nat)
    requires StopsAt(frags, maxLength, k1) && StopsAt(frags, maxLength, k2)
    ensures k1 == k2
  {
  }

  /** Splitting on a character drops exactly one character per separator:
      the fragments' lengths plus the separators add up to the text. */
  lemma {:induction false} TotalSplit(s: string, sep: char)
    ensures Total(Split(s, sep)) + |Split(s, sep)| - 1 == |s|
  {
    if |s| > 0 {
      TotalSplit(s[1..], sep);
      var rest := Split(s[1..], sep);
      if s[0] == sep {
        assert ([""] + rest)[1..] == rest;
      } else {
        assert ([[s[0]] + rest[0]] + rest[1..])[1..] == rest[1..];
      }
    }
  }

  /** A text no longer than the budget is summarized from all its fragments. */
  lemma ShortTextKeepsAll(text: string, maxLength: int)
    requires |text| <= maxLength
    ensures StopsAt(Sentences(text), maxLength, |Sentences(text)|)
  {
    var frags := Sentences(text);
    TotalSplit(text, '.');
    forall n | 0 < n <= |frags| ensures PrefixTotal(frags, n) <= maxLength {
      assert frags == frags[..n] + frags[n..];
      TotalAppend(frags[..n], frags[n..]);
      PrefixTotalIsTotal(frags, n);
    }
  }

  /** The budget counts raw fragments: once a prefix overflows, every longer
      prefix overflows too, so no later fragment could have been kept. */
  lemma {:induction false} OverflowPersists(frags: seq<string>, maxLength: int, k: nat, j: nat)
    requires StopsAt(frags, maxLength, k)
    requires k < j <= |frags|
    ensures PrefixTotal(frags, j) > maxLength
  {
    if j > k + 1 {
      OverflowPersists(frags, maxLength, k, j - 1);
    }
  }
}
