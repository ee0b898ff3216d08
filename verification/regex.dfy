/** The regular expressions of the tender extractor, and Python's `re.search`
    and `re.findall` over them.

    Every pattern the extractor uses has the same outline: a label (literal
    words, `\s+` gaps between them, or a `[^:]*:` run up to a colon), then
    `\s*`, then one capture group that ends the pattern. `Occurs` is the
    regular-expression language of such a pattern; `PythonMatchAt` picks the
    match Python's backtracking engine returns at a start position (greedy
    quantifiers tried longest first); `MatchAt` is a hand-written matcher,
    proved to return exactly that match. */
module Regex {
  import opened Chars
  import opened Options

  datatype LabelPart =
    | Word(w: string)   // literal text
    | Blanks            // \s+
    | UpToColon         // [^:]*:

  /** The capture group that ends a pattern. */
  datatype Shape =
    | IdToken      // ([0-9-]+)
    | Date         // (\d{2}/\d{2}/\d{4})
    | RestOfLine   // ([^\n]+)
    | CpvCode      // (\d{8}[-\d]*)

  /** `label \s* (shape)` */
  datatype Pattern = Pattern(parts: seq<LabelPart>, shape: Shape)

  /** A match starting at `start`: the label covers [start, labelEnd), the
      `\s*` covers [labelEnd, capStart) and group 1 is [capStart, capEnd),
      which is also where the whole match ends. */
  datatype Match = Match(start: nat, labelEnd: nat, capStart: nat, capEnd: nat)

  /** `match.group(1)` */
  function Capture(text: string, m: Match): string
    requires m.capStart <= m.capEnd <= |text|
  {
    text[m.capStart..m.capEnd]
  }

  // ---------------------------------------------------------------------------
  // The language of a pattern
  // ---------------------------------------------------------------------------

  predicate WordAt(text: string, i: nat, w: string) {
    i + |w| <= |text| && text[i..i + |w|] == w
  }

  /** The label matches text[i..j], for some way of splitting the text among
      its parts. */
  ghost predicate LabelSpans(text: string, i: nat, parts: seq<LabelPart>, j: nat)
    decreases |parts|
  {
    if |parts| == 0 then i == j
    else match parts[0]
      case Word(w) =>
        WordAt(text, i, w) && LabelSpans(text, i + |w|, parts[1..], j)
      case Blanks =>
        exists k: nat :: i < k <= |text| && AllIn(text, i, k, Space)
                         && LabelSpans(text, k, parts[1..], j)
      case UpToColon =>
        exists k: nat :: i <= k < |text| && AllIn(text, i, k, NotColon) && text[k] == ':'
                         && LabelSpans(text, k + 1, parts[1..], j)
  }

  /** text[s..s+10] is `\d{2}/\d{2}/\d{4}`. */
  predicate IsDateAt(text: string, s: nat) {
    && s + 10 <= |text|
    && IsDecimal(text[s]) && IsDecimal(text[s + 1]) && text[s + 2] == '/'
    && IsDecimal(text[s + 3]) && IsDecimal(text[s + 4]) && text[s + 5] == '/'
    && IsDecimal(text[s + 6]) && IsDecimal(text[s + 7])
    && IsDecimal(text[s + 8]) && IsDecimal(text[s + 9])
  }

  /** text[s..e] is in the language of the capture group. */
  ghost predicate InShape(text: string, s: nat, e: nat, shape: Shape)
    requires s <= e <= |text|
  {
    match shape
    case IdToken => s < e && AllIn(text, s, e, IdChar)
    case Date => e == s + 10 && IsDateAt(text, s)
    case RestOfLine => s < e && AllIn(text, s, e, NotNewline)
    case CpvCode => s + 8 <= e && AllIn(text, s, s + 8, Decimal) && AllIn(text, s + 8, e, CodeChar)
  }

  /** `m` is a match of `p` in the sense of the regular-expression language. */
  ghost predicate Occurs(text: string, p: Pattern, m: Match) {
    && m.start <= m.labelEnd <= m.capStart <= m.capEnd <= |text|
    && LabelSpans(text, m.start, p.parts, m.labelEnd)
    && AllIn(text, m.labelEnd, m.capStart, Space)
    && InShape(text, m.capStart, m.capEnd, p.shape)
  }

  /** Backtracking order: `\s*` is tried longest first and, for each of its
      lengths, the group's repetition longest first; `b` is tried no later
      than `a`. */
  predicate TriedNoLater(a: Match, b: Match) {
    a.capStart < b.capStart || (a.capStart == b.capStart && a.capEnd <= b.capEnd)
  }

  /** The match Python's engine reports for an attempt at position `i`:
      the first one in backtracking order. */
  ghost predicate PythonMatchAt(text: string, p: Pattern, i: nat, m: Match) {
    && m.start == i
    && Occurs(text, p, m)
    && forall m': Match :: m'.start == i && Occurs(text, p, m') ==> TriedNoLater(m', m)
  }

  /** `re.search`: the Python match at the leftmost start position that has one. */
  ghost predicate Leftmost(text: string, p: Pattern, pos: nat, m: Match) {
    && pos <= m.start
    && PythonMatchAt(text, p, m.start, m)
    && forall m' :: Occurs(text, p, m') && pos <= m'.start ==> m.start <= m'.start
  }

  /** The extractor's labels are unambiguous: every `\s+` is followed by a
      word that starts with a non-space character. */
  predicate WellFormedLabel(parts: seq<LabelPart>) {
    |parts| == 0 ||
    (&& (parts[0].Blanks? ==>
           |parts| > 1 && parts[1].Word? && |parts[1].w| > 0 && !IsSpace(parts[1].w[0]))
     && WellFormedLabel(parts[1..]))
  }

  predicate WellFormed(p: Pattern) {
    WellFormedLabel(p.parts)
  }

  // ---------------------------------------------------------------------------
  // The matcher
  // ---------------------------------------------------------------------------

  /** Deterministic label matching: `\s+` and `[^:]*` each take their longest run. */
  function MatchLabel(text: string, i: nat, parts: seq<LabelPart>): (r: Option<nat>)
    requires i <= |text|
    ensures r.Some? ==> i <= r.value <= |text|
    decreases |parts|
  {
    if |parts| == 0 then Some(i)
    else match parts[0]
      case Word(w) =>
        if WordAt(text, i, w) then MatchLabel(text, i + |w|, parts[1..]) else None
      case Blanks =>
        var k := SpanWhile(text, i, Space);
        if k == i then None else MatchLabel(text, k, parts[1..])
      case UpToColon =>
        var k := SpanWhile(text, i, NotColon);
        if k == |text| then None else MatchLabel(text, k + 1, parts[1..])
  }

  /** The group at position `s`, its repetition taken longest first: the end
      of the longest capture starting at `s`, if there is any. */
  function CaptureAt(text: string, s: nat, shape: Shape): (r: Option<nat>)
    requires s <= |text|
    ensures r.Some? ==> s < r.value <= |text| && InShape(text, s, r.value, shape)
    ensures r.Some? ==> forall e :: s <= e <= |text| && InShape(text, s, e, shape) ==> e <= r.value
    ensures r.None? ==> forall e :: s <= e <= |text| ==> !InShape(text, s, e, shape)
  {
    match shape
    case IdToken =>
      var e := SpanWhile(text, s, IdChar);
      if e == s then None else Some(e)
    case Date =>
      if IsDateAt(text, s) then Some(s + 10) else None
    case RestOfLine =>
      var e := SpanWhile(text, s, NotNewline);
      if e == s then None else Some(e)
    case CpvCode =>
      if SpanWhile(text, s, Decimal) < s + 8 then None
      else Some(SpanWhile(text, s + 8, CodeChar))
  }

  /** Backtracking of `\s*`: try the capture at `s`, then at `s - 1`, ...,
      down to `lo`; the first position where the group matches wins. */
  function Backtrack(text: string, shape: Shape, lo: nat, s: nat): (r: Option<(nat, nat)>)
    requires lo <= s <= |text|
    ensures r.Some? ==> lo <= r.value.0 <= s && CaptureAt(text, r.value.0, shape) == Some(r.value.1)
    ensures r.Some? ==> forall t :: r.value.0 < t <= s ==> CaptureAt(text, t, shape).None?
    ensures r.None? ==> forall t :: lo <= t <= s ==> CaptureAt(text, t, shape).None?
    decreases s
  {
    match CaptureAt(text, s, shape)
    case Some(e) => Some((s, e))
    case None => if s == lo then None else Backtrack(text, shape, lo, s - 1)
  }

  /** One attempt of the engine at position `i`. */
  function MatchAt(text: string, i: nat, p: Pattern): (r: Option<Match>)
    requires i <= |text|
    ensures r.Some? ==> r.value.start == i
    ensures r.Some? ==> i <= r.value.labelEnd <= r.value.capStart < r.value.capEnd <= |text|
  {
    match MatchLabel(text, i, p.parts)
    case None => None
    case Some(j) =>
      match Backtrack(text, p.shape, j, SpanWhile(text, j, Space))
      case None => None
      case Some((cs, ce)) => Some(Match(i, j, cs, ce))
  }

  /** `re.search(p, text[pos:])` in positions of `text`: attempts at pos,
      pos + 1, ..., |text|; the first that succeeds is the result. */
  function SearchFrom(text: string, p: Pattern, pos: nat): (r: Option<Match>)
    requires pos <= |text|
    ensures r.Some? ==> pos <= r.value.start <= |text| && MatchAt(text, r.value.start, p) == r
    ensures r.Some? ==> forall q :: pos <= q < r.value.start ==> MatchAt(text, q, p).None?
    ensures r.None? ==> forall q :: pos <= q <= |text| ==> MatchAt(text, q, p).None?
    decreases |text| - pos
  {
    match MatchAt(text, pos, p)
    case Some(m) => Some(m)
    case None =>
      if pos == |text| then None
      else
        var r := SearchFrom(text, p, pos + 1);
        // The failed attempt at `pos`, written as a range so that it joins
        // the recursive call's quantifier over `pos + 1 <= q`.
        assert forall q :: pos <= q <= pos ==> MatchAt(text, q, p).None?;
        r
  }

  /** `re.search(p, text)` */
  function Search(text: string, p: Pattern): Option<Match> {
    SearchFrom(text, p, 0)
  }

  /** The matches `re.findall` walks through: search, resume at the end of the
      match, repeat. */
  function FindAllFrom(text: string, p: Pattern, pos: nat): (r: seq<Match>)
    requires pos <= |text|
    ensures Walk(text, pos, r)
    decreases |text| - pos
  {
    match SearchFrom(text, p, pos)
    case None => []
    case Some(m) =>
      var rest := FindAllFrom(text, p, m.capEnd);
      WalkCons(text, pos, m, rest);
      [m] + rest
  }

  /** Matches at or after `pos`, each non-empty, in order and non-overlapping. */
  ghost predicate Walk(text: string, pos: nat, ms: seq<Match>) {
    && (forall k :: 0 <= k < |ms| ==> pos <= ms[k].start <= ms[k].capStart < ms[k].capEnd <= |text|)
    && (forall k :: 0 <= k < |ms| - 1 ==> ms[k].capEnd <= ms[k + 1].start)
  }

  lemma WalkCons(text: string, pos: nat, m: Match, rest: seq<Match>)
    requires pos <= m.start <= m.capStart < m.capEnd <= |text|
    requires Walk(text, m.capEnd, rest)
    ensures Walk(text, pos, [m] + rest)
  {
    var ms := [m] + rest;
    assert forall k :: 1 <= k < |ms| ==> ms[k] == rest[k - 1];
  }

  /** Group 1 of each match, in order. */
  function Captures(text: string, ms: seq<Match>): (r: seq<string>)
    requires forall k :: 0 <= k < |ms| ==> ms[k].capStart <= ms[k].capEnd <= |text|
    ensures |r| == |ms|
    ensures forall k :: 0 <= k < |ms| ==> r[k] == Capture(text, ms[k])
  {
    if |ms| == 0 then [] else [Capture(text, ms[0])] + Captures(text, ms[1..])
  }

  /** `re.findall(p, text)` for a pattern with one group. */
  function FindAll(text: string, p: Pattern): (r: seq<string>)
    ensures forall k :: 0 <= k < |r| ==> InShape(r[k], 0, |r[k]|, p.shape)
  {
    var ms := FindAllFrom(text, p, 0);
    FindAllInShape(text, p, 0);
    forall k | 0 <= k < |ms| ensures InShape(Capture(text, ms[k]), 0, |Capture(text, ms[k])|, p.shape) {
      CaptureInShape(text, ms[k], p.shape);
    }
    Captures(text, ms)
  }

  // ---------------------------------------------------------------------------
  // The matcher is Python's engine
  // ---------------------------------------------------------------------------

  /** What an attempt returns is a capture of the pattern's group. */
  lemma MatchAtInShape(text: string, i: nat, p: Pattern, m: Match)
    requires i <= |text|
    requires MatchAt(text, i, p) == Some(m)
    ensures m.capStart <= m.capEnd <= |text| && InShape(text, m.capStart, m.capEnd, p.shape)
  {
  }

  /** The class a group's trailing repetition runs over; a date has none. */
  function RunClass(shape: Shape): CharClass
    requires shape != Date
  {
    match shape
    case IdToken => IdChar
    case RestOfLine => NotNewline
    case CpvCode => CodeChar
  }

  /** Greediness: the group of the reported match cannot be extended by one
      more character of its class. */
  lemma GroupIsMaximal(text: string, p: Pattern, i: nat, m: Match)
    requires PythonMatchAt(text, p, i, m)
    requires p.shape != Date
    ensures m.capEnd == |text| || !InClass(text[m.capEnd], RunClass(p.shape))
  {
    if m.capEnd < |text| && InClass(text[m.capEnd], RunClass(p.shape)) {
      var m' := m.(capEnd := m.capEnd + 1);
      assert Occurs(text, p, m');
    }
  }

  /** A capture in the group's language, taken out of the text, is in it on
      its own. */
  lemma CaptureInShape(text: string, m: Match, shape: Shape)
    requires m.capStart <= m.capEnd <= |text|
    requires InShape(text, m.capStart, m.capEnd, shape)
    ensures var v := Capture(text, m); InShape(v, 0, |v|, shape)
  {
    var v := Capture(text, m);
    assert forall k :: 0 <= k < |v| ==> v[k] == text[m.capStart + k];
  }

  /** Every match in `ms` has a group in the language of `shape`. */
  ghost predicate AllInShape(text: string, ms: seq<Match>, shape: Shape) {
    forall k :: 0 <= k < |ms| ==>
      ms[k].capStart <= ms[k].capEnd <= |text| && InShape(text, ms[k].capStart, ms[k].capEnd, shape)
  }

  /** Every capture `re.findall` collects has the shape of the pattern's group. */
  lemma {:induction false} FindAllInShape(text: string, p: Pattern, pos: nat)
    requires pos <= |text|
    ensures AllInShape(text, FindAllFrom(text, p, pos), p.shape)
    decreases |text| - pos
  {
    match SearchFrom(text, p, pos)
    case None =>
    case Some(m) =>
      MatchAtInShape(text, m.start, p, m);
      FindAllInShape(text, p, m.capEnd);
      var rest := FindAllFrom(text, p, m.capEnd);
      assert FindAllFrom(text, p, pos) == [m] + rest;
      ConsInShape(text, m, rest, p.shape);
  }

  lemma ConsInShape(text: string, m: Match, rest: seq<Match>, shape: Shape)
    requires m.capStart <= m.capEnd <= |text| && InShape(text, m.capStart, m.capEnd, shape)
    requires AllInShape(text, rest, shape)
    ensures AllInShape(text, [m] + rest, shape)
  {
    var ms := [m] + rest;
    forall k | 0 <= k < |ms|
      ensures ms[k].capStart <= ms[k].capEnd <= |text| && InShape(text, ms[k].capStart, ms[k].capEnd, shape)
    {
      if k > 0 {
        assert ms[k] == rest[k - 1];
      }
    }
  }

  /** In a well-formed label the `\s+` gap ends where the next word begins,
      which is where the longest whitespace run ends. */
  lemma BlanksEndAtWord(text: string, i: nat, k: nat, parts: seq<LabelPart>, j: nat)
    requires |parts| > 0 && parts[0].Blanks? && WellFormedLabel(parts)
    requires i <= k <= |text| && AllIn(text, i, k, Space)
    requires LabelSpans(text, k, parts[1..], j)
    ensures k == SpanWhile(text, i, Space)
  {
    var w := parts[1].w;
    assert parts[1..][0] == Word(w);
    assert WordAt(text, k, w);
    assert text[k] == w[0];
    SpanWhileUnique(text, i, Space, k);
  }

  /** For an unambiguous label, the deterministic label matcher finds exactly
      the spans of the label's language. */
  lemma {:induction false} MatchLabelCorrect(text: string, i: nat, parts: seq<LabelPart>, j: nat)
    requires i <= |text|
    requires WellFormedLabel(parts)
    ensures LabelSpans(text, i, parts, j) <==> MatchLabel(text, i, parts) == Some(j)
    decreases |parts|, 1
  {
    if |parts| > 0 {
      match parts[0]
      case Word(w) => WordStepCorrect(text, i, parts, j);
      case Blanks => BlanksStepCorrect(text, i, parts, j);
      case UpToColon =>
        if LabelSpans(text, i, parts, j) {
          ColonFirst(text, i, parts, j);
          ColonStepComplete(text, i, parts, j);
        }
        if MatchLabel(text, i, parts) == Some(j) {
          ColonStepSound(text, i, parts, j);
        }
    }
  }

  lemma {:induction false} WordStepCorrect(text: string, i: nat, parts: seq<LabelPart>, j: nat)
    requires i <= |text|
    requires |parts| > 0 && parts[0].Word? && WellFormedLabel(parts)
    ensures LabelSpans(text, i, parts, j) <==> MatchLabel(text, i, parts) == Some(j)
    decreases |parts|, 0
  {
    var w := parts[0].w;
    if WordAt(text, i, w) {
      MatchLabelCorrect(text, i + |w|, parts[1..], j);
    }
  }

  lemma {:induction false} BlanksStepCorrect(text: string, i: nat, parts: seq<LabelPart>, j: nat)
    requires i <= |text|
    requires |parts| > 0 && parts[0].Blanks? && WellFormedLabel(parts)
    ensures LabelSpans(text, i, parts, j) <==> MatchLabel(text, i, parts) == Some(j)
    decreases |parts|, 0
  {
    var rest := parts[1..];
    var k0 := SpanWhile(text, i, Space);
    if LabelSpans(text, i, parts, j) {
      var k: nat :| i < k <= |text| && AllIn(text, i, k, Space) && LabelSpans(text, k, rest, j);
      BlanksEndAtWord(text, i, k, parts, j);
      MatchLabelCorrect(text, k, rest, j);
    }
    if MatchLabel(text, i, parts) == Some(j) {
      MatchLabelCorrect(text, k0, rest, j);
      assert i < k0 <= |text| && AllIn(text, i, k0, Space) && LabelSpans(text, k0, rest, j);
    }
  }

  /** After the first colon, a span of the rest of the label is the one the
      matcher finds for the whole label. */
  lemma {:induction false} ColonStepComplete(text: string, i: nat, parts: seq<LabelPart>, j: nat)
    requires i <= |text|
    requires |parts| > 0 && parts[0].UpToColon? && WellFormedLabel(parts)
    requires SpanWhile(text, i, NotColon) < |text|
    requires LabelSpans(text, SpanWhile(text, i, NotColon) + 1, parts[1..], j)
    ensures MatchLabel(text, i, parts) == Some(j)
    decreases |parts|, 0
  {
    var k0 := SpanWhile(text, i, NotColon);
    MatchLabelCorrect(text, k0 + 1, parts[1..], j);
    assert MatchLabel(text, i, parts) == MatchLabel(text, k0 + 1, parts[1..]);
  }

  /** The matcher's `[^:]*:` span is a span of the label language. */
  lemma {:induction false} ColonStepSound(text: string, i: nat, parts: seq<LabelPart>, j: nat)
    requires i <= |text|
    requires |parts| > 0 && parts[0].UpToColon? && WellFormedLabel(parts)
    requires MatchLabel(text, i, parts) == Some(j)
    ensures LabelSpans(text, i, parts, j)
    decreases |parts|, 0
  {
    var rest := parts[1..];
    var k0 := SpanWhile(text, i, NotColon);
    assert k0 < |text| && MatchLabel(text, k0 + 1, rest) == Some(j);
    MatchLabelCorrect(text, k0 + 1, rest, j);
    assert i <= k0 < |text| && AllIn(text, i, k0, NotColon) && text[k0] == ':'
           && LabelSpans(text, k0 + 1, rest, j);
  }

  /** The `[^:]*:` of a label ends at the first colon. */
  lemma ColonFirst(text: string, i: nat, parts: seq<LabelPart>, j: nat)
    requires i <= |text|
    requires |parts| > 0 && parts[0].UpToColon?
    requires LabelSpans(text, i, parts, j)
    ensures SpanWhile(text, i, NotColon) < |text|
    ensures LabelSpans(text, SpanWhile(text, i, NotColon) + 1, parts[1..], j)
  {
    var k: nat :| i <= k < |text| && AllIn(text, i, k, NotColon) && text[k] == ':'
                  && LabelSpans(text, k + 1, parts[1..], j);
    SpanWhileUnique(text, i, NotColon, k);
  }

  /** `MatchAt` returns exactly the match Python's engine reports for an
      attempt at `i`, and nothing when no match of the pattern starts there. */
  lemma MatchAtCorrect(text: string, i: nat, p: Pattern)
    requires i <= |text|
    requires WellFormed(p)
    ensures MatchAt(text, i, p).None? <==> forall m: Match :: m.start == i ==> !Occurs(text, p, m)
    ensures forall m :: MatchAt(text, i, p) == Some(m) <==> PythonMatchAt(text, p, i, m)
  {
    assert WellFormedLabel(p.parts);
    match MatchLabel(text, i, p.parts)
    case None =>
      forall m: Match | m.start == i && Occurs(text, p, m) ensures false {
        MatchLabelCorrect(text, i, p.parts, m.labelEnd);
      }
    case Some(j) =>
      var w := SpanWhile(text, j, Space);
      // every match that starts at i ends its label at j and its `\s*` by w
      forall m: Match | m.start == i && Occurs(text, p, m)
        ensures m.labelEnd == j && m.capStart <= w
        ensures CaptureAt(text, m.capStart, p.shape).Some?
        ensures m.capEnd <= CaptureAt(text, m.capStart, p.shape).value
      {
        MatchLabelCorrect(text, i, p.parts, m.labelEnd);
        SpanWhileBounds(text, j, Space, m.capStart);
      }
      match Backtrack(text, p.shape, j, w)
      case None =>
      case Some((cs, ce)) =>
        var m0 := Match(i, j, cs, ce);
        MatchLabelCorrect(text, i, p.parts, j);
        assert Occurs(text, p, m0);
        forall m: Match | m.start == i && Occurs(text, p, m) ensures TriedNoLater(m, m0) {
        }
        assert PythonMatchAt(text, p, i, m0);
        forall m | PythonMatchAt(text, p, i, m) ensures m == m0 {
          assert TriedNoLater(m0, m);
        }
  }

  /** `Search` is `re.search`: the leftmost start with a match, and there
      the match Python's engine reports; nothing when the pattern occurs
      nowhere. */
  lemma SearchCorrect(text: string, p: Pattern, pos: nat)
    requires pos <= |text|
    requires WellFormed(p)
    ensures SearchFrom(text, p, pos).None? <==>
              forall m :: Occurs(text, p, m) ==> m.start < pos
    ensures forall m :: SearchFrom(text, p, pos) == Some(m) <==> Leftmost(text, p, pos, m)
  {
    var r := SearchFrom(text, p, pos);
    forall m | Occurs(text, p, m) && pos <= m.start
      ensures MatchAt(text, m.start, p).Some?
      ensures r.Some? && r.value.start <= m.start
    {
      MatchAtCorrect(text, m.start, p);
    }
    if r.Some? {
      var m0 := r.value;
      MatchAtCorrect(text, m0.start, p);
      assert Leftmost(text, p, pos, m0);
      forall m | Leftmost(text, p, pos, m) ensures m == m0 {
        assert m0.start == m.start;
      }
    }
  }

  /** What `re.findall` walks through, stated on the language: each match is
      the leftmost Python match from where the previous one ended, and after
      the last one the pattern occurs no more. */
  ghost predicate FindAllSpec(text: string, p: Pattern, pos: nat, ms: seq<Match>)
    decreases |ms|
  {
    if |ms| == 0 then forall m :: Occurs(text, p, m) ==> m.start < pos
    else Leftmost(text, p, pos, ms[0]) && FindAllSpec(text, p, ms[0].capEnd, ms[1..])
  }

  /** `FindAllFrom` is `re.findall`'s walk. */
  lemma {:induction false} FindAllCorrect(text: string, p: Pattern, pos: nat)
    requires pos <= |text|
    requires WellFormed(p)
    ensures FindAllSpec(text, p, pos, FindAllFrom(text, p, pos))
    decreases |text| - pos
  {
    SearchCorrect(text, p, pos);
    var r := SearchFrom(text, p, pos);
    if r.Some? {
      var m := r.value;
      FindAllCorrect(text, p, m.capEnd);
      var ms := FindAllFrom(text, p, pos);
      assert ms[0] == m && ms[1..] == FindAllFrom(text, p, m.capEnd);
    }
  }

  /** Any two sequences satisfying `FindAllSpec` are equal: the walk is
      determined by the text. */
  lemma {:induction false} FindAllSpecUnique(text: string, p: Pattern, pos: nat, ms: seq<Match>, ns: seq<Match>)
    requires WellFormed(p)
    requires FindAllSpec(text, p, pos, ms)
    requires FindAllSpec(text, p, pos, ns)
    ensures ms == ns
    decreases |ms|
  {
    if |ms| > 0 && |ns| > 0 {
      LeftmostUnique(text, p, pos, ms[0], ns[0]);
      FindAllSpecUnique(text, p, ms[0].capEnd, ms[1..], ns[1..]);
      assert ms == [ms[0]] + ms[1..] && ns == [ns[0]] + ns[1..];
    }
  }

  /** `re.search` has one answer: two leftmost Python matches are equal. */
  lemma LeftmostUnique(text: string, p: Pattern, pos: nat, a: Match, b: Match)
    requires WellFormed(p)
    requires Leftmost(text, p, pos, a) && Leftmost(text, p, pos, b)
    ensures a == b
  {
    assert a.start <= b.start && b.start <= a.start;
    assert TriedNoLater(a, b) && TriedNoLater(b, a);
    LabelSpansUnique(text, a.start, p, a.labelEnd, b.labelEnd);
  }

  lemma LabelSpansUnique(text: string, i: nat, p: Pattern, j1: nat, j2: nat)
    requires WellFormed(p) && i <= |text|
    requires LabelSpans(text, i, p.parts, j1) && LabelSpans(text, i, p.parts, j2)
    ensures j1 == j2
  {
    assert WellFormedLabel(p.parts);
    MatchLabelCorrect(text, i, p.parts, j1);
    MatchLabelCorrect(text, i, p.parts, j2);
  }
}
