/** Character classes used by the tender-notice patterns, and the greedy
    "longest run of one class" scan that every repetition in them reduces to. */
module Chars {

  /** Python's whitespace on `str`: the characters `\s` matches and `str.strip()`
      removes (the same set for both). */
  predicate IsSpace(c: char) {
    || c == ' ' || c == '\t' || c == '\n' || c == '\r'
    || c == '\U{000B}' || c == '\U{000C}'
    || ('\U{001C}' <= c <= '\U{001F}')
    || c == '\U{0085}' || c == '\U{00A0}' || c == '\U{1680}'
    || ('\U{2000}' <= c <= '\U{200A}')
    || c == '\U{2028}' || c == '\U{2029}' || c == '\U{202F}' || c == '\U{205F}'
    || c == '\U{3000}'
  }

  /** The bracket class `[0-9]`. */
  predicate IsAsciiDigit(c: char) {
    '0' <= c <= '9'
  }

  /** The escape `\d`. Python matches every Unicode decimal digit here; this
      model restricts it to the ASCII digits. */
  predicate IsDecimal(c: char) {
    IsAsciiDigit(c)
  }

  /** The classes the patterns repeat. */
  datatype CharClass =
    | Space         // \s
    | Decimal       // \d
    | IdChar        // [0-9-]
    | CodeChar      // [-\d]
    | NotColon      // [^:]
    | NotNewline    // [^\n]

  predicate InClass(c: char, cls: CharClass) {
    match cls
    case Space => IsSpace(c)
    case Decimal => IsDecimal(c)
    case IdChar => IsAsciiDigit(c) || c == '-'
    case CodeChar => IsDecimal(c) || c == '-'
    case NotColon => c != ':'
    case NotNewline => c != '\n'
  }

  /** Every character of text[lo..hi] belongs to `cls`. */
  ghost predicate AllIn(text: string, lo: nat, hi: nat, cls: CharClass)
    requires lo <= hi <= |text|
  {
    forall k :: lo <= k < hi ==> InClass(text[k], cls)
  }

  /** Greedy `cls*` from position `s`: the end of the longest run of `cls`
      characters starting there. */
  function SpanWhile(text: string, s: nat, cls: CharClass): (r: nat)
    requires s <= |text|
    ensures s <= r <= |text|
    ensures AllIn(text, s, r, cls)
    ensures r == |text| || !InClass(text[r], cls)
    decreases |text| - s
  {
    if s == |text| || !InClass(text[s], cls) then s
    else SpanWhile(text, s + 1, cls)
  }

  /** A run of `cls` that cannot be extended ends exactly where the scan stops:
      the scan's end is the only such position. */
  lemma SpanWhileUnique(text: string, s: nat, cls: CharClass, e: nat)
    requires s <= e <= |text|
    requires AllIn(text, s, e, cls)
    requires e == |text| || !InClass(text[e], cls)
    ensures SpanWhile(text, s, cls) == e
  {
  }

  /** Any run of `cls` starting at `s` ends no later than the scan. */
  lemma SpanWhileBounds(text: string, s: nat, cls: CharClass, e: nat)
    requires s <= e <= |text|
    requires AllIn(text, s, e, cls)
    ensures e <= SpanWhile(text, s, cls)
  {
  }
}
