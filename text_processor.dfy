/**
 * The text utilities of the reader: word segmentation, the Optimal
 * Recognition Point (ORP) of a word, the three-way split of a word around
 * its ORP, and the words-per-minute to milliseconds conversion.
 * Strings are sequences of characters.
 */
module TextProcessor {
  import opened Arith

  // ---------------------------------------------------------------------
  // Whitespace
  // ---------------------------------------------------------------------

  /** The characters the regular-expression class `\s` and `String.prototype.trim`
      treat as whitespace: the ECMAScript WhiteSpace and LineTerminator code points. */
  predicate IsWhitespace(c: char) {
    || c == ' '
    || ('\t' <= c <= '\r')      // TAB, LF, VT, FF, CR
    || c == '\U{00A0}' || c == '\U{1680}'
    || ('\U{2000}' <= c <= '\U{200A}')
    || c == '\U{2028}' || c == '\U{2029}'
    || c == '\U{202F}' || c == '\U{205F}'
    || c == '\U{3000}' || c == '\U{FEFF}'
  }

  predicate NoWhitespace(s: string) {
    forall i :: 0 <= i < |s| ==> !IsWhitespace(s[i])
  }

  predicate AllWhitespace(s: string) {
    forall i :: 0 <= i < |s| ==> IsWhitespace(s[i])
  }

  /** `s` with every whitespace character deleted, the others kept in order. */
  function RemoveWhitespace(s: string): string {
    if s == [] then []
    else (if IsWhitespace(s[0]) then [] else [s[0]]) + RemoveWhitespace(s[1..])
  }

  /** The concatenation of a sequence of strings. */
  function Concat(ts: seq<string>): string {
    if ts == [] then [] else ts[0] + Concat(ts[1..])
  }

  // ---------------------------------------------------------------------
  // trim / split(/\s+/) / filter
  // ---------------------------------------------------------------------

  /** Drops the leading run of whitespace. */
  function TrimStart(s: string): (r: string)
    ensures |r| <= |s|
    ensures s != [] && IsWhitespace(s[0]) ==> |r| < |s|
  {
    if s != [] && IsWhitespace(s[0]) then TrimStart(s[1..]) else s
  }

  /** Drops the trailing run of whitespace. */
  function TrimEnd(s: string): (r: string)
    ensures |r| <= |s|
  {
    if s != [] && IsWhitespace(s[|s| - 1]) then TrimEnd(s[..|s| - 1]) else s
  }

  /** `String.prototype.trim`. */
  function Trim(s: string): string {
    TrimEnd(TrimStart(s))
  }

  /** `s.split(/\s+/)`: the fields between maximal runs of whitespace. A leading
      (trailing) run yields an empty first (last) field, and the empty string
      yields one empty field. */
  function SplitRuns(s: string): (r: seq<string>)
    ensures |r| >= 1
    decreases |s|
  {
    if s == [] then [[]]
    else if IsWhitespace(s[0]) then [[]] + SplitRuns(TrimStart(s))
    else
      var rest := SplitRuns(s[1..]);
      [[s[0]] + rest[0]] + rest[1..]
  }

  /** `.filter(word => word.length > 0)` */
  function DropEmpty(ts: seq<string>): seq<string> {
    if ts == [] then []
    else if ts[0] == [] then DropEmpty(ts[1..])
    else [ts[0]] + DropEmpty(ts[1..])
  }

  /** `splitIntoWords`: trim, split on whitespace runs, drop empty strings. */
  function SplitIntoWords(text: string): (words: seq<string>)
    ensures forall i :: 0 <= i < |words| ==> |words[i]| > 0 && NoWhitespace(words[i])
    ensures Concat(words) == RemoveWhitespace(text)
    ensures words == [] <==> AllWhitespace(text)
  {
    var fields := SplitRuns(Trim(text));
    SplitRunsNoWhitespace(Trim(text));
    SplitRunsConcat(Trim(text));
    DropEmptyKeepsFields(fields);
    DropEmptyConcat(fields);
    RemoveWhitespaceTrim(text);
    var words := DropEmpty(fields);
    ConcatOfNonEmptyIsEmpty(words);
    RemoveWhitespaceEmpty(text);
    words
  }

  // ---------------------------------------------------------------------
  // A direct scanner for words, as a reference definition
  // ---------------------------------------------------------------------

  /** The leading run of non-whitespace characters. */
  function TakeWord(s: string): (w: string)
    ensures |w| <= |s|
    ensures s != [] && !IsWhitespace(s[0]) ==> |w| > 0
  {
    if s == [] || IsWhitespace(s[0]) then [] else [s[0]] + TakeWord(s[1..])
  }

  /** Skip whitespace, take a maximal run of other characters, repeat. */
  function Words(s: string): seq<string>
    decreases |s|
  {
    var t := TrimStart(s);
    if t == [] then []
    else
      var w := TakeWord(t);
      [w] + Words(t[|w|..])
  }

  // ---------------------------------------------------------------------
  // Lemmas about segmentation
  // ---------------------------------------------------------------------

  /** `TrimStart` deletes a prefix of whitespace and stops at a non-whitespace character. */
  lemma {:induction false} TrimStartShape(s: string)
    ensures TrimStart(s) == s[|s| - |TrimStart(s)|..]
    ensures forall i :: 0 <= i < |s| - |TrimStart(s)| ==> IsWhitespace(s[i])
    ensures TrimStart(s) == [] || !IsWhitespace(TrimStart(s)[0])
    decreases |s|
  {
    if s != [] && IsWhitespace(s[0]) {
      TrimStartShape(s[1..]);
      forall i | 1 <= i < |s| - |TrimStart(s)|
        ensures IsWhitespace(s[i])
      {
        assert s[i] == s[1..][i - 1];
      }
    }
  }

  /** `TrimEnd` deletes a suffix of whitespace and stops at a non-whitespace character. */
  lemma {:induction false} TrimEndShape(s: string)
    ensures TrimEnd(s) == s[..|TrimEnd(s)|]
    ensures forall i :: |TrimEnd(s)| <= i < |s| ==> IsWhitespace(s[i])
    ensures TrimEnd(s) == [] || !IsWhitespace(TrimEnd(s)[|TrimEnd(s)| - 1])
    decreases |s|
  {
    if s != [] && IsWhitespace(s[|s| - 1]) {
      TrimEndShape(s[..|s| - 1]);
      forall i | |TrimEnd(s)| <= i < |s| - 1
        ensures IsWhitespace(s[i])
      {
        assert s[i] == s[..|s| - 1][i];
      }
    }
  }

  /** `TakeWord` takes a prefix free of whitespace that ends at whitespace or at the end. */
  lemma {:induction false} TakeWordShape(s: string)
    ensures TakeWord(s) == s[..|TakeWord(s)|]
    ensures NoWhitespace(TakeWord(s))
    ensures |TakeWord(s)| == |s| || IsWhitespace(s[|TakeWord(s)|])
    decreases |s|
  {
    if s != [] && !IsWhitespace(s[0]) {
      TakeWordShape(s[1..]);
      assert s[|TakeWord(s)|..] == s[1..][|TakeWord(s[1..])|..];
    }
  }

  lemma ConcatCons(a: string, ts: seq<string>)
    ensures Concat([a] + ts) == a + Concat(ts)
  {
    assert ([a] + ts)[1..] == ts;
  }

  lemma {:induction false} RemoveWhitespaceAppend(a: string, b: string)
    ensures RemoveWhitespace(a + b) == RemoveWhitespace(a) + RemoveWhitespace(b)
    decreases |a|
  {
    if a == [] {
      assert a + b == b;
    } else {
      assert (a + b)[1..] == a[1..] + b;
      RemoveWhitespaceAppend(a[1..], b);
    }
  }

  lemma {:induction false} RemoveWhitespaceTrimStart(s: string)
    ensures RemoveWhitespace(TrimStart(s)) == RemoveWhitespace(s)
    decreases |s|
  {
    if s != [] && IsWhitespace(s[0]) {
      RemoveWhitespaceTrimStart(s[1..]);
    }
  }

  lemma {:induction false} RemoveWhitespaceTrimEnd(s: string)
    ensures RemoveWhitespace(TrimEnd(s)) == RemoveWhitespace(s)
    decreases |s|
  {
    if s != [] && IsWhitespace(s[|s| - 1]) {
      var n := |s| - 1;
      RemoveWhitespaceTrimEnd(s[..n]);
      assert s == s[..n] + [s[n]];
      RemoveWhitespaceAppend(s[..n], [s[n]]);
    }
  }

  /** Trimming deletes only whitespace. */
  lemma RemoveWhitespaceTrim(s: string)
    ensures RemoveWhitespace(Trim(s)) == RemoveWhitespace(s)
  {
    RemoveWhitespaceTrimStart(s);
    RemoveWhitespaceTrimEnd(TrimStart(s));
  }

  /** Nothing is left after deleting whitespace iff the string is all whitespace. */
  lemma {:induction false} RemoveWhitespaceEmpty(s: string)
    ensures RemoveWhitespace(s) == [] <==> AllWhitespace(s)
    decreases |s|
  {
    if s != [] {
      RemoveWhitespaceEmpty(s[1..]);
      if !IsWhitespace(s[0]) {
        assert RemoveWhitespace(s)[0] == s[0];
      } else {
        assert AllWhitespace(s) <==> AllWhitespace(s[1..]) by {
          if AllWhitespace(s[1..]) {
            forall i | 1 <= i < |s| ensures IsWhitespace(s[i]) {
              assert s[i] == s[1..][i - 1];
            }
          }
        }
      }
    }
  }

  lemma {:induction false} SplitRunsNoWhitespace(s: string)
    ensures forall i :: 0 <= i < |SplitRuns(s)| ==> NoWhitespace(SplitRuns(s)[i])
    decreases |s|
  {
    if s == [] {
    } else if IsWhitespace(s[0]) {
      SplitRunsNoWhitespace(TrimStart(s));
    } else {
      SplitRunsNoWhitespace(s[1..]);
      var rest := SplitRuns(s[1..]);
      assert NoWhitespace([s[0]] + rest[0]) by {
        forall i | 1 <= i < |rest[0]| + 1 ensures !IsWhitespace(([s[0]] + rest[0])[i]) {
          assert ([s[0]] + rest[0])[i] == rest[0][i - 1];
        }
      }
    }
  }

  /** The fields of `split(/\s+/)`, put back together, are the input without its whitespace. */
  lemma {:induction false} SplitRunsConcat(s: string)
    ensures Concat(SplitRuns(s)) == RemoveWhitespace(s)
    decreases |s|
  {
    if s == [] {
    } else if IsWhitespace(s[0]) {
      var t := TrimStart(s);
      SplitRunsConcat(t);
      ConcatCons([], SplitRuns(t));
      RemoveWhitespaceTrimStart(s);
    } else {
      var rest := SplitRuns(s[1..]);
      SplitRunsConcat(s[1..]);
      ConcatCons([s[0]] + rest[0], rest[1..]);
      assert rest == [rest[0]] + rest[1..];
      ConcatCons(rest[0], rest[1..]);
    }
  }

  /** The first field of `split(/\s+/)` is the leading word. */
  lemma {:induction false} SplitRunsHead(s: string)
    ensures SplitRuns(s)[0] == TakeWord(s)
    decreases |s|
  {
    if s != [] && !IsWhitespace(s[0]) {
      SplitRunsHead(s[1..]);
    }
  }

  lemma {:induction false} DropEmptyKeepsFields(ts: seq<string>)
    ensures forall i :: 0 <= i < |DropEmpty(ts)| ==> |DropEmpty(ts)[i]| > 0 && DropEmpty(ts)[i] in ts
  {
    if ts != [] {
      DropEmptyKeepsFields(ts[1..]);
    }
  }

  /** The filter works token by token: it keeps, in order, exactly the non-empty ones. */
  lemma {:induction false} DropEmptyAppend(ts: seq<string>, us: seq<string>)
    ensures DropEmpty(ts + us) == DropEmpty(ts) + DropEmpty(us)
    ensures DropEmpty([]) == []
    ensures forall t: string :: DropEmpty([t]) == if t == [] then [] else [t]
  {
    if ts != [] {
      assert (ts + us)[1..] == ts[1..] + us;
      DropEmptyAppend(ts[1..], us);
    } else {
      assert ts + us == us;
    }
    forall t: string
      ensures DropEmpty([t]) == if t == [] then [] else [t]
    {
      assert [t][1..] == [];
    }
  }

  lemma {:induction false} DropEmptyConcat(ts: seq<string>)
    ensures Concat(DropEmpty(ts)) == Concat(ts)
  {
    if ts != [] {
      DropEmptyConcat(ts[1..]);
      assert Concat(ts) == ts[0] + Concat(ts[1..]);
      if ts[0] != [] {
        assert DropEmpty(ts) == [ts[0]] + DropEmpty(ts[1..]);
        ConcatCons(ts[0], DropEmpty(ts[1..]));
      } else {
        assert DropEmpty(ts) == DropEmpty(ts[1..]);
        assert ts[0] + Concat(ts[1..]) == Concat(ts[1..]);
      }
    }
  }

  lemma ConcatOfNonEmptyIsEmpty(ts: seq<string>)
    requires forall i :: 0 <= i < |ts| ==> |ts[i]| > 0
    ensures Concat(ts) == [] <==> ts == []
  {
  }

  lemma {:induction false} TrimStartIdempotent(s: string)
    ensures TrimStart(TrimStart(s)) == TrimStart(s)
    decreases |s|
  {
    if s != [] && IsWhitespace(s[0]) {
      TrimStartIdempotent(s[1..]);
    }
  }

  /** Filtering the fields of `split(/\s+/)` gives exactly the scanned words. */
  lemma {:induction false} SplitRunsWords(s: string)
    ensures DropEmpty(SplitRuns(s)) == Words(s)
    decreases |s|
  {
    if s == [] {
    } else if IsWhitespace(s[0]) {
      var t := TrimStart(s);
      SplitRunsWords(t);
      assert ([[]] + SplitRuns(t))[1..] == SplitRuns(t);
      TrimStartIdempotent(s);
    } else {
      var rest := SplitRuns(s[1..]);
      SplitRunsWords(s[1..]);
      SplitRunsHead(s[1..]);
      var w := TakeWord(s);
      assert w == [s[0]] + rest[0];
      assert SplitRuns(s) == [w] + rest[1..];
      assert ([w] + rest[1..])[1..] == rest[1..];
      assert DropEmpty(SplitRuns(s)) == [w] + DropEmpty(rest[1..]);
      assert rest == [rest[0]] + rest[1..];
      assert Words(s) == [w] + Words(s[|w|..]);
      if rest[0] == [] {
        assert DropEmpty(rest) == DropEmpty(rest[1..]);
        assert s[|w|..] == s[1..];
      } else {
        assert DropEmpty(rest) == [rest[0]] + DropEmpty(rest[1..]);
        assert TrimStart(s[1..]) == s[1..];
        assert Words(s[1..]) == [rest[0]] + Words(s[1..][|rest[0]|..]);
        assert s[1..][|rest[0]|..] == s[|w|..];
        assert ([rest[0]] + DropEmpty(rest[1..]))[1..] == DropEmpty(rest[1..]);
        assert ([rest[0]] + Words(s[|w|..]))[1..] == Words(s[|w|..]);
      }
    }
  }

  lemma {:induction false} AllWhitespaceTrimStart(s: string)
    requires AllWhitespace(s)
    ensures TrimStart(s) == []
    decreases |s|
  {
    if s != [] {
      assert AllWhitespace(s[1..]) by {
        forall i | 0 <= i < |s| - 1 ensures IsWhitespace(s[1..][i]) {
          assert s[1..][i] == s[i + 1];
        }
      }
      AllWhitespaceTrimStart(s[1..]);
    }
  }

  lemma {:induction false} TrimStartPrefix(ws: string, t: string)
    requires AllWhitespace(ws)
    requires t != [] && !IsWhitespace(t[0])
    ensures TrimStart(ws + t) == t
    decreases |ws|
  {
    if ws == [] {
      assert ws + t == t;
    } else {
      assert (ws + t)[1..] == ws[1..] + t;
      assert AllWhitespace(ws[1..]) by {
        forall i | 0 <= i < |ws| - 1 ensures IsWhitespace(ws[1..][i]) {
          assert ws[1..][i] == ws[i + 1];
        }
      }
      TrimStartPrefix(ws[1..], t);
    }
  }

  lemma {:induction false} TakeWordAppend(t: string, ws: string)
    requires AllWhitespace(ws)
    ensures TakeWord(t + ws) == TakeWord(t)
    decreases |t|
  {
    if t == [] {
      assert t + ws == ws;
    } else {
      assert (t + ws)[1..] == t[1..] + ws;
      assert (t + ws)[0] == t[0];
      TakeWordAppend(t[1..], ws);
    }
  }

  /** Appending whitespace does not change the words. */
  lemma {:induction false} WordsAppendWhitespace(s: string, ws: string)
    requires AllWhitespace(ws)
    ensures Words(s + ws) == Words(s)
    decreases |s|
  {
    var t := TrimStart(s);
    TrimStartShape(s);
    var k := |s| - |t|;
    if t == [] {
      assert AllWhitespace(s + ws) by {
        forall i | 0 <= i < |s + ws| ensures IsWhitespace((s + ws)[i]) {
          if i >= |s| { assert (s + ws)[i] == ws[i - |s|]; }
        }
      }
      AllWhitespaceTrimStart(s + ws);
    } else {
      assert s + ws == s[..k] + (t + ws);
      assert (t + ws)[0] == t[0];
      TrimStartPrefix(s[..k], t + ws);
      var w := TakeWord(t);
      TakeWordAppend(t, ws);
      assert (t + ws)[|w|..] == t[|w|..] + ws;
      WordsAppendWhitespace(t[|w|..], ws);
    }
  }

  lemma WordsTrimStart(s: string)
    ensures Words(TrimStart(s)) == Words(s)
  {
    TrimStartIdempotent(s);
  }

  /** `splitIntoWords` agrees with the direct scanner on every input: the words are
      exactly the maximal runs of non-whitespace characters, in order. */
  lemma SplitIntoWordsIsWords(text: string)
    ensures SplitIntoWords(text) == Words(text)
  {
    var t := TrimStart(text);
    var u := TrimEnd(t);
    SplitRunsWords(u);
    TrimEndShape(t);
    assert t == u + t[|u|..];
    assert AllWhitespace(t[|u|..]) by {
      forall i | 0 <= i < |t| - |u| ensures IsWhitespace(t[|u|..][i]) {
        assert t[|u|..][i] == t[|u| + i];
      }
    }
    WordsAppendWhitespace(u, t[|u|..]);
    WordsTrimStart(text);
  }

  // ---------------------------------------------------------------------
  // Optimal Recognition Point
  // ---------------------------------------------------------------------

  /** `getORPIndex`: a step function of the word's length. The focus character
      exists for every non-empty word and sits in the first third of it. */
  function GetOrpIndex(word: string): (r: nat)
    ensures |word| == 0 ==> r == 0
    ensures |word| > 0 ==> r < |word|
    ensures 3 * r <= |word|
  {
    var len := |word|;
    if len <= 1 then 0
    else if len <= 3 then 0
    else if len <= 5 then 1
    else if len <= 9 then 2
    else if len <= 13 then 3
    else len / 4
  }

  /** The ORP index depends on the length alone. */
  lemma OrpIndexDependsOnLength(u: string, v: string)
    requires |u| == |v|
    ensures GetOrpIndex(u) == GetOrpIndex(v)
  {
  }

  /** Longer words never get an earlier focus character, across every bucket
      boundary (13 -> 14 included: both give 3). */
  lemma OrpIndexMonotone(u: string, v: string)
    requires |u| <= |v|
    ensures GetOrpIndex(u) <= GetOrpIndex(v)
  {
    if |u| > 13 {
      assert |u| / 4 <= |v| / 4;
    }
  }

  /** The bucket table: 0 up to 3 characters, 1 for 4-5, 2 for 6-9, 3 for 10-13,
      the floor of a quarter of the length above that. */
  lemma OrpIndexBuckets(word: string)
    ensures |word| <= 3 ==> GetOrpIndex(word) == 0
    ensures 4 <= |word| <= 5 ==> GetOrpIndex(word) == 1
    ensures 6 <= |word| <= 9 ==> GetOrpIndex(word) == 2
    ensures 10 <= |word| <= 13 ==> GetOrpIndex(word) == 3
    ensures |word| > 13 ==> GetOrpIndex(word) == |word| / 4
  {
  }

  lemma OrpIndexExamples()
    ensures GetOrpIndex("a") == 0 && GetOrpIndex("cat") == 0
    ensures GetOrpIndex("apple") == 1 && GetOrpIndex("elephant") == 2
    ensures GetOrpIndex("university") == 3 && GetOrpIndex("internationally") == 3
  {
  }

  /** `String.prototype.slice(start, end)` for non-negative bounds: both are clamped to the length. */
  function Slice(s: string, start: nat, end: nat): (r: string)
    ensures |r| <= |s|
  {
    var e := if end <= |s| then end else |s|;
    var b := if start <= e then start else e;
    s[b..e]
  }

  datatype OrpSplit = OrpSplit(before: string, orp: string, after: string)

  /** `splitWordAtORP`: the text before the focus character, the focus character
      (empty when there is none) and the text after it. */
  function SplitWordAtOrp(word: string): (r: OrpSplit)
    ensures r.before + r.orp + r.after == word
    ensures |r.orp| == 1 <==> |word| > 0
    ensures |r.orp| <= 1
    ensures |word| > 0 ==> |r.before| == GetOrpIndex(word) && r.orp[0] == word[GetOrpIndex(word)]
    ensures word == [] ==> r == OrpSplit([], [], [])
  {
    var i := GetOrpIndex(word);
    OrpSplit(Slice(word, 0, i), if i < |word| then [word[i]] else [], Slice(word, i + 1, |word|))
  }

  // ---------------------------------------------------------------------
  // Pacing
  // ---------------------------------------------------------------------

  /** A timer delay: `Math.round` of a finite quotient, or the infinity that a
      division by zero produces. */
  datatype Delay = Millis(ms: int) | Infinite

  /** `m` is `Math.round(n / d)` for the exact quotient: the integer with
      m - 1/2 <= n/d < m + 1/2 (halves round up), multiplied out by 2*d. */
  predicate RoundsHalfUp(n: int, d: int, m: int) {
    if d > 0 then (2 * m - 1) * d <= 2 * n < (2 * m + 1) * d
    else if d < 0 then (2 * m - 1) * d >= 2 * n > (2 * m + 1) * d
    else false
  }

  /** `wpmToDelay`: `Math.round(60000 / wpm)`. */
  function WpmToDelay(wpm: int): (r: Delay)
    ensures r.Infinite? <==> wpm == 0
    ensures r.Millis? ==> RoundsHalfUp(60000, wpm, r.ms)
  {
    if wpm == 0 then Infinite
    else if wpm > 0 then
      var m := (120000 + wpm) / (2 * wpm);
      DivBounds(120000 + wpm, 2 * wpm);
      Millis(m)
    else
      var m := (-120000 - wpm) / (-2 * wpm);
      DivBounds(-120000 - wpm, -2 * wpm);
      Millis(m)
  }

  lemma DivBounds(n: int, d: int)
    requires d > 0
    ensures d * (n / d) <= n < d * (n / d) + d
  {
  }

  /** Rounding is a function: at most one integer rounds a given quotient. */
  lemma RoundsHalfUpUnique(n: int, d: int, m1: int, m2: int)
    requires RoundsHalfUp(n, d, m1) && RoundsHalfUp(n, d, m2)
    ensures m1 == m2
  {
  }

  lemma WpmToDelayExamples()
    ensures WpmToDelay(300) == Millis(200) && WpmToDelay(60) == Millis(1000)
    ensures WpmToDelay(1000) == Millis(60) && WpmToDelay(50) == Millis(1200)
  {
  }

  /** A faster speed never gives a longer delay. */
  lemma WpmToDelayNonIncreasing(u: int, v: int)
    requires 1 <= u <= v
    ensures WpmToDelay(v).ms <= WpmToDelay(u).ms
  {
    var mu, mv := WpmToDelay(u).ms, WpmToDelay(v).ms;
    assert RoundsHalfUp(60000, u, mu) && RoundsHalfUp(60000, v, mv);
    RoundedQuotientOrder(60000, u, v, mu, mv);
  }

  /** For a non-negative numerator, a larger positive denominator rounds to a smaller (or equal) integer. */
  lemma RoundedQuotientOrder(n: int, u: int, v: int, mu: int, mv: int)
    requires n >= 0 && 1 <= u <= v
    requires RoundsHalfUp(n, u, mu) && RoundsHalfUp(n, v, mv)
    ensures mv <= mu
  {
    if mv > 0 {
      var a := 2 * mv - 1;
      MulMonotone(u, v, a);
      assert a * u <= 2 * n < (2 * mu + 1) * u;
      MulCancel(a, 2 * mu + 1, u);
    } else {
      MulPositive(2 * mu + 1, u);
    }
  }

  lemma MulCancel(a: int, b: int, k: int)
    requires k > 0 && a * k < b * k
    ensures a < b
  {
  }

  lemma MulPositive(a: int, k: int)
    requires k > 0 && a * k > 0
    ensures a > 0
  {
  }

  /** Within the slider's range of 50 to 1000 words per minute the delay lies between 60 and 1200 ms. */
  lemma WpmToDelayRange(wpm: int)
    requires 50 <= wpm <= 1000
    ensures 60 <= WpmToDelay(wpm).ms <= 1200
  {
    WpmToDelayNonIncreasing(50, wpm);
    WpmToDelayNonIncreasing(wpm, 1000);
    WpmToDelayExamples();
  }
}
