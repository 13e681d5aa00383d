/**
 * What a scan of the sensitive-word filter reports, stated over a plain set of
 * words without any trie: the text is lowercased once, and from every start
 * offset the shortest stored word that begins there (if any) is reported as the
 * slice of the lowercased text it covers, in left-to-right order.
 */
module Matching {

  import opened Options

  /** The capitals this model folds: ASCII `A`-`Z` and the Latin-1 capitals `U+00C0`-`U+00DE` other than `U+00D7`. */
  predicate IsUpper(c: char) {
    'A' <= c <= 'Z' || ('\U{C0}' <= c <= '\U{DE}' && c != '\U{D7}')
  }

  /** Lowercase one character: a capital becomes a non-capital, anything else is kept. */
  function LowerChar(c: char): (r: char)
    ensures !IsUpper(r)
    ensures r != c <==> IsUpper(c)
  {
    if IsUpper(c) then (c as int + 32) as char else c
  }

  /**
   * `str.lower()`: keeps the length, leaves no capital, keeps every
   * non-capital in place and changes every capital.
   */
  function Lower(s: string): (r: string)
    ensures |r| == |s|
    ensures forall k :: 0 <= k < |r| ==> !IsUpper(r[k])
    ensures forall k :: 0 <= k < |s| ==> (r[k] == s[k] <==> !IsUpper(s[k]))
  {
    seq(|s|, k requires 0 <= k < |s| => LowerChar(s[k]))
  }

  /** Lowercasing is idempotent: a lowercased string is its own lowercase. */
  lemma LowerIdempotent(s: string)
    ensures Lower(Lower(s)) == Lower(s)
  {
    var l := Lower(s);
    assert forall k :: 0 <= k < |l| ==> Lower(l)[k] == l[k];
  }

  /** Every slice of a lowercased text is already lowercase. */
  lemma SliceOfLowerIsLower(text: string, a: nat, b: nat)
    requires a <= b <= |text|
    ensures Lower(Lower(text)[a..b]) == Lower(text)[a..b]
  {
    var w := Lower(text)[a..b];
    assert forall k :: 0 <= k < |w| ==> Lower(w)[k] == w[k];
  }

  /** A word of `words`, `m` characters long, occurs at offset `i` of `t`. */
  predicate WordAt(words: set<string>, t: string, i: nat, m: nat) {
    i + m <= |t| && t[i..i + m] in words
  }

  /**
   * The length of the shortest word of `words` that starts at offset `i` of `t`
   * and is at least `len` long; None when no such word occurs there.
   */
  function ShortestAt(words: set<string>, t: string, i: nat, len: nat): (r: Option<nat>)
    requires i <= |t|
    decreases |t| - i + 1 - len
    ensures r.Some? ==>
              && len <= r.value
              && WordAt(words, t, i, r.value)
              && forall m :: len <= m < r.value ==> !WordAt(words, t, i, m)
    ensures r.None? ==> forall m :: len <= m ==> !WordAt(words, t, i, m)
  {
    if i + len > |t| then None
    else if t[i..i + len] in words then Some(len)
    else ShortestAt(words, t, i, len + 1)
  }

  /** No word of `len` characters starts at `i`: the search goes on with `len + 1`. */
  lemma ShortestSkip(words: set<string>, t: string, i: nat, len: nat)
    requires i + len <= |t| && t[i..i + len] !in words
    ensures ShortestAt(words, t, i, len) == ShortestAt(words, t, i, len + 1)
  {
  }

  /** A word of `len` characters starts at `i`: the search stops there. */
  lemma ShortestHit(words: set<string>, t: string, i: nat, len: nat)
    requires i + len <= |t| && t[i..i + len] in words
    ensures ShortestAt(words, t, i, len) == Some(len)
  {
  }

  /** No word of `len` or more characters starts at `i`: the search finds nothing. */
  lemma ShortestNone(words: set<string>, t: string, i: nat, len: nat)
    requires i <= |t|
    requires forall m :: len <= m ==> !WordAt(words, t, i, m)
    ensures ShortestAt(words, t, i, len) == None
  {
  }

  /** One reported occurrence: where it starts in the scanned text and the slice it covers. */
  datatype Match = Match(start: nat, word: string)

  /** The reports for start offsets below `n`, in increasing order of start offset. */
  function MatchesUpTo(words: set<string>, t: string, n: nat): (r: seq<Match>)
    requires n <= |t|
    ensures |r| <= n
    ensures forall k :: 0 <= k < |r| ==>
              && r[k].start < n
              && 1 <= |r[k].word|
              && r[k].start + |r[k].word| <= |t|
              && t[r[k].start..r[k].start + |r[k].word|] == r[k].word
              && r[k].word in words
    ensures forall a, b :: 0 <= a < b < |r| ==> r[a].start < r[b].start
  {
    if n == 0 then []
    else
      var earlier := MatchesUpTo(words, t, n - 1);
      match ShortestAt(words, t, n - 1, 1)
      case None => earlier
      case Some(m) => earlier + [Match(n - 1, t[n - 1..n - 1 + m])]
  }

  /** The full scan of an (already lowercased) text against a word set. */
  function Scan(words: set<string>, t: string): seq<Match> {
    MatchesUpTo(words, t, |t|)
  }

  /** The reported strings, dropping the start offsets. */
  function WordsOf(ms: seq<Match>): seq<string> {
    seq(|ms|, k requires 0 <= k < |ms| => ms[k].word)
  }

  /** Scanning one more start offset `n` where no word starts reports nothing new. */
  lemma ScanStepNone(words: set<string>, t: string, n: nat)
    requires n < |t| && ShortestAt(words, t, n, 1).None?
    ensures WordsOf(MatchesUpTo(words, t, n + 1)) == WordsOf(MatchesUpTo(words, t, n))
  {
  }

  /** Scanning one more start offset `n` where a word starts adds the shortest such word at the end. */
  lemma ScanStepSome(words: set<string>, t: string, n: nat, m: nat)
    requires n < |t| && ShortestAt(words, t, n, 1) == Some(m)
    ensures n + m <= |t|
    ensures WordsOf(MatchesUpTo(words, t, n + 1)) == WordsOf(MatchesUpTo(words, t, n)) + [t[n..n + m]]
  {
    var earlier := MatchesUpTo(words, t, n);
    var x := Match(n, t[n..n + m]);
    assert MatchesUpTo(words, t, n + 1) == earlier + [x];
    assert WordsOf(earlier + [x]) == WordsOf(earlier) + [x.word];
  }

  /** The report from a start offset is the shortest stored word beginning there: no shorter non-empty stored word begins there. */
  lemma {:induction false} MatchIsShortest(words: set<string>, t: string, n: nat, k: nat, m: nat)
    requires n <= |t|
    requires k < |MatchesUpTo(words, t, n)|
    requires 1 <= m < |MatchesUpTo(words, t, n)[k].word|
    ensures !WordAt(words, t, MatchesUpTo(words, t, n)[k].start, m)
  {
    var earlier := MatchesUpTo(words, t, n - 1);
    if k < |earlier| {
      MatchIsShortest(words, t, n - 1, k, m);
    } else {
      var s := ShortestAt(words, t, n - 1, 1);
      assert MatchesUpTo(words, t, n)[k] == Match(n - 1, t[n - 1..n - 1 + s.value]);
    }
  }

  /**
   * Completeness: when a non-empty stored word occurs at offset `i`, a match
   * starting at `i` is reported, and it is no longer than that word.
   */
  lemma {:induction false} Complete(words: set<string>, t: string, n: nat, w: string, i: nat)
    requires n <= |t|
    requires w in words && w != []
    requires i < n && i + |w| <= |t| && t[i..i + |w|] == w
    ensures exists k :: 0 <= k < |MatchesUpTo(words, t, n)| &&
                        MatchesUpTo(words, t, n)[k].start == i &&
                        |MatchesUpTo(words, t, n)[k].word| <= |w|
  {
    if i < n - 1 {
      Complete(words, t, n - 1, w, i);
      var k :| 0 <= k < |MatchesUpTo(words, t, n - 1)| && MatchesUpTo(words, t, n - 1)[k].start == i &&
               |MatchesUpTo(words, t, n - 1)[k].word| <= |w|;
      EarlierKept(words, t, n, k);
    } else {
      assert WordAt(words, t, i, |w|);
      LastReported(words, t, n);
    }
  }

  /** Raising the bound keeps every match already reported. */
  lemma EarlierKept(words: set<string>, t: string, n: nat, k: nat)
    requires 1 <= n <= |t|
    requires k < |MatchesUpTo(words, t, n - 1)|
    ensures k < |MatchesUpTo(words, t, n)| && MatchesUpTo(words, t, n)[k] == MatchesUpTo(words, t, n - 1)[k]
  {
  }

  /** When a word starts at `n - 1`, the last match up to `n` starts there and is the shortest such word. */
  lemma LastReported(words: set<string>, t: string, n: nat)
    requires 1 <= n <= |t|
    requires ShortestAt(words, t, n - 1, 1).Some?
    ensures var r := MatchesUpTo(words, t, n);
            |r| >= 1 && r[|r| - 1].start == n - 1 &&
            |r[|r| - 1].word| == ShortestAt(words, t, n - 1, 1).value
  {
  }

  /**
   * Soundness of the start offsets: a match is reported from offset `i` only
   * if some non-empty stored word occurs at `i`.
   */
  lemma {:induction false} OnlyWhereAWordOccurs(words: set<string>, t: string, n: nat, i: nat)
    requires n <= |t| && i < n
    requires forall m :: 1 <= m ==> !WordAt(words, t, i, m)
    ensures forall k :: 0 <= k < |MatchesUpTo(words, t, n)| ==> MatchesUpTo(words, t, n)[k].start != i
  {
    var r := MatchesUpTo(words, t, n);
    forall k | 0 <= k < |r|
      ensures r[k].start != i
    {
      var x := r[k];
      assert WordAt(words, t, x.start, |x.word|);
    }
  }

  /** Every reported string is lowercase, since it is a slice of the lowercased text. */
  lemma ReportedAreLower(words: set<string>, text: string)
    ensures forall w :: w in WordsOf(Scan(words, Lower(text))) ==> Lower(w) == w
  {
    var t := Lower(text);
    var r := Scan(words, t);
    forall w | w in WordsOf(r)
      ensures Lower(w) == w
    {
      var k :| 0 <= k < |r| && WordsOf(r)[k] == w;
      SliceOfLowerIsLower(text, r[k].start, r[k].start + |r[k].word|);
    }
  }

  /**
   * A stored word that is not its own lowercase (it holds a capital) is never
   * reported: words are stored verbatim while only the text is lowercased.
   */
  lemma CapitalizedNeverReported(words: set<string>, text: string, w: string)
    requires Lower(w) != w
    ensures w !in WordsOf(Scan(words, Lower(text)))
  {
    ReportedAreLower(words, text);
  }

  /** The word set with every word lowercased. */
  function Folded(words: set<string>): (r: set<string>)
    ensures forall v :: v in r ==> Lower(v) == v
  {
    LowerIdempotentAll(words);
    set w | w in words :: Lower(w)
  }

  lemma LowerIdempotentAll(words: set<string>)
    ensures forall w :: w in words ==> Lower(Lower(w)) == Lower(w)
  {
    forall w | w in words
      ensures Lower(Lower(w)) == Lower(w)
    {
      LowerIdempotent(w);
    }
  }

  lemma FoldedAdd(words: set<string>, w: string)
    ensures Folded(words + {w}) == Folded(words) + {Lower(w)}
  {
  }

  /** Lowercasing a slice is slicing the lowercased text. */
  lemma LowerOfSlice(text: string, a: nat, b: nat)
    requires a <= b <= |text|
    ensures Lower(text[a..b]) == Lower(text)[a..b]
  {
    assert forall k :: 0 <= k < b - a ==> Lower(text[a..b])[k] == Lower(text)[a..b][k];
  }

  /** Where no word of the set occurs at all, nothing is reported. */
  lemma {:induction false} NoWordNoMatch(words: set<string>, t: string, n: nat)
    requires n <= |t|
    requires forall i: nat, m: nat :: i + m <= |t| ==> !WordAt(words, t, i, m)
    ensures MatchesUpTo(words, t, n) == []
  {
    if n > 0 {
      NoWordNoMatch(words, t, n - 1);
      ShortestNone(words, t, n - 1, 1);
    }
  }

  /**
   * Stored verbatim, the capitalized word "Scam" is never reported, not even
   * in the text "SCAM", whose lowercase is "scam".
   */
  lemma VerbatimScamMissed()
    ensures Scan({"Scam"}, Lower("SCAM")) == []
  {
    var t := Lower("SCAM");
    assert t == "scam" by {
      assert forall k :: 0 <= k < 4 ==> t[k] == "scam"[k];
    }
    forall i: nat, m: nat | i + m <= |t|
      ensures !WordAt({"Scam"}, t, i, m)
    {
      // Only the whole text has the length of "Scam", and it starts with 's'.
      if m == 4 {
        assert i == 0 && t[i..i + m] == t;
        assert t[0] != "Scam"[0];
      }
    }
    assert Scan({"Scam"}, t) == [] by {
      NoWordNoMatch({"Scam"}, t, |t|);
    }
  }

  /**
   * With the words lowercased before they are stored, every non-empty word
   * that occurs in the text up to case is found: a match is reported at its
   * start offset, no longer than the word.
   */
  lemma FoldedFindsEveryOccurrence(words: set<string>, text: string, w: string, i: nat)
    requires w in words && w != []
    requires i + |w| <= |text| && Lower(text[i..i + |w|]) == Lower(w)
    ensures var r := Scan(Folded(words), Lower(text));
            exists k :: 0 <= k < |r| && r[k].start == i && |r[k].word| <= |w|
  {
    LowerOfSlice(text, i, i + |w|);
    var t := Lower(text);
    assert Lower(w) in Folded(words) && |Lower(w)| == |w|;
    assert t[i..i + |Lower(w)|] == Lower(w);
    Complete(Folded(words), t, |t|, Lower(w), i);
    var r := MatchesUpTo(Folded(words), t, |t|);
    var k :| 0 <= k < |r| && r[k].start == i && |r[k].word| <= |Lower(w)|;
    assert r == Scan(Folded(words), Lower(text));
  }
}
