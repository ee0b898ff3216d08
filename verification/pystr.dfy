/** The three Python string builtins the summary is built from:
    `str.strip()`, `str.split(sep)` with a one-character separator, and
    `sep.join(parts)`. */
module PyStr {
  import opened Chars

  // ---------------------------------------------------------------------------
  // str.strip()
  // ---------------------------------------------------------------------------

  /** Backwards scan: the start of the whitespace run that ends at `b`,
      not going below `a`. */
  function TrimEnd(s: string, a: nat, b: nat): (r: nat)
    requires a <= b <= |s|
    ensures a <= r <= b
    ensures AllIn(s, r, b, Space)
    ensures r == a || !IsSpace(s[r - 1])
    decreases b
  {
    if b > a && IsSpace(s[b - 1]) then TrimEnd(s, a, b - 1) else b
  }

  /** A whitespace run ending at `b` that cannot be extended backwards starts
      exactly where the backwards scan stops. */
  lemma TrimEndUnique(s: string, a: nat, b: nat, e: nat)
    requires a <= e <= b <= |s|
    requires AllIn(s, e, b, Space)
    requires e == a || !IsSpace(s[e - 1])
    ensures TrimEnd(s, a, b) == e
  {
  }

  /** `r` is `s` with the whitespace prefix s[..a] and a whitespace suffix removed. */
  ghost predicate StripsTo(s: string, r: string, a: nat) {
    && a + |r| <= |s|
    && s[a..a + |r|] == r
    && AllIn(s, 0, a, Space)
    && AllIn(s, a + |r|, |s|, Space)
  }

  /** `r` neither begins nor ends with whitespace. */
  predicate Trimmed(r: string) {
    |r| == 0 || (!IsSpace(r[0]) && !IsSpace(r[|r| - 1]))
  }

  /** Python's `s.strip()`: remove leading and trailing whitespace. */
  function Strip(s: string): (r: string)
    ensures Trimmed(r)
    ensures exists a :: StripsTo(s, r, a)
  {
    var a := SpanWhile(s, 0, Space);
    var b := TrimEnd(s, a, |s|);
    assert StripsTo(s, s[a..b], a);
    s[a..b]
  }

  /** Strip's result is the only trimmed string obtained from `s` by cutting
      whitespace off its two ends. */
  lemma StripUnique(s: string, r: string, a: nat)
    requires StripsTo(s, r, a)
    requires Trimmed(r)
    ensures Strip(s) == r
  {
    var a0 := SpanWhile(s, 0, Space);
    var b0 := TrimEnd(s, a0, |s|);
    if |r| == 0 {
      // every character of s is whitespace
      assert AllIn(s, 0, |s|, Space) by {
        forall k | 0 <= k < |s| ensures IsSpace(s[k]) {
          if k >= a { assert InClass(s[k], Space); }
        }
      }
      SpanWhileUnique(s, 0, Space, |s|);
    } else {
      assert s[a] == r[0];
      SpanWhileUnique(s, 0, Space, a);
      var b := a + |r|;
      assert s[b - 1] == r[|r| - 1];
      TrimEndUnique(s, a, |s|, b);
    }
  }

  /** A string without surrounding whitespace strips to itself. */
  lemma StripTrimmed(s: string)
    requires Trimmed(s)
    ensures Strip(s) == s
  {
    assert StripsTo(s, s, 0);
    StripUnique(s, s, 0);
  }

  /** Stripping twice is stripping once. */
  lemma StripIdempotent(s: string)
    ensures Strip(Strip(s)) == Strip(s)
  {
    StripTrimmed(Strip(s));
  }

  /** Every character of the stripped string occurs in `s`. */
  lemma StripChars(s: string, c: char)
    requires c in Strip(s)
    ensures c in s
  {
    var r := Strip(s);
    var a: nat :| StripsTo(s, r, a);
    var k :| 0 <= k < |r| && r[k] == c;
    assert s[a + k] == c;
  }

  // ---------------------------------------------------------------------------
  // str.split(sep) and sep.join(parts)
  // ---------------------------------------------------------------------------

  /** Python's `s.split(sep)` for a one-character `sep`: the maximal
      sep-free pieces between separators, empty pieces included. */
  function Split(s: string, sep: char): (r: seq<string>)
    ensures |r| >= 1
    ensures forall k :: 0 <= k < |r| ==> sep !in r[k]
  {
    if |s| == 0 then [""]
    else
      var rest := Split(s[1..], sep);
      if s[0] == sep then [""] + rest
      else [[s[0]] + rest[0]] + rest[1..]
  }

  /** Python's `sep.join(parts)`. */
  function Join(parts: seq<string>, sep: string): string
  {
    if |parts| == 0 then ""
    else if |parts| == 1 then parts[0]
    else parts[0] + sep + Join(parts[1..], sep)
  }

  /** Joining the pieces of a split with the separator gives back the text. */
  lemma {:induction false} JoinSplit(s: string, sep: char)
    ensures Join(Split(s, sep), [sep]) == s
  {
    if |s| > 0 {
      var rest := Split(s[1..], sep);
      JoinSplit(s[1..], sep);
      if s[0] != sep {
        if |rest| > 1 {
          assert Join(rest, [sep]) == rest[0] + [sep] + Join(rest[1..], [sep]);
        }
        assert s == [s[0]] + s[1..];
      }
    }
  }

  /** Split inverts join: splitting sep-free parts joined by the separator
      returns the parts. */
  lemma {:induction false} SplitJoin(parts: seq<string>, sep: char)
    requires |parts| >= 1
    requires forall k :: 0 <= k < |parts| ==> sep !in parts[k]
    ensures Split(Join(parts, [sep]), sep) == parts
  {
    if |parts| == 1 {
      SplitFree(parts[0], sep);
    } else {
      var tail := Join(parts[1..], [sep]);
      SplitJoin(parts[1..], sep);
      SplitPrefix(parts[0], sep, tail);
    }
  }

  /** A sep-free string splits into itself. */
  lemma {:induction false} SplitFree(s: string, sep: char)
    requires sep !in s
    ensures Split(s, sep) == [s]
  {
    if |s| > 0 {
      SplitFree(s[1..], sep);
      assert [s[0]] + s[1..] == s;
    }
  }

  /** Splitting `w + sep + t` for a sep-free `w` yields `w` followed by the
      pieces of `t`. */
  lemma {:induction false} SplitPrefix(w: string, sep: char, t: string)
    requires sep !in w
    ensures Split(w + [sep] + t, sep) == [w] + Split(t, sep)
  {
    var s := w + [sep] + t;
    if |w| == 0 {
      assert s[1..] == t;
    } else {
      assert s[1..] == w[1..] + [sep] + t;
      SplitPrefix(w[1..], sep, t);
      assert [w[0]] + w[1..] == w;
    }
  }

  /** A `". "`-join of period-free parts never ends with a period. */
  lemma {:induction false} JoinNoTrailingPeriod(parts: seq<string>)
    requires forall k :: 0 <= k < |parts| ==> '.' !in parts[k]
    ensures var j := Join(parts, ". "); |j| == 0 || j[|j| - 1] != '.'
  {
    if |parts| > 1 {
      var tail := Join(parts[1..], ". ");
      JoinNoTrailingPeriod(parts[1..]);
      var j := parts[0] + ". " + tail;
      if |tail| > 0 {
        assert j[|j| - 1] == tail[|tail| - 1];
      } else {
        assert j[|j| - 1] == ' ';
      }
    } else if |parts| == 1 {
      var p := parts[0];
      if |p| > 0 {
        assert p[|p| - 1] in p;
      }
    }
  }
}
