/** The handful of regular expressions the handlers build around a word
    taken from the document (`\bword`, `*\s*word\b`, `\bword\s*->`, ...).
    A pattern is a sequence of atoms: a word boundary `\b`, a literal, or a
    run `\s*` of white space. The word is spliced in as a literal, so a word
    holding regular-expression metacharacters is read literally here. */
module Pattern {
  import opened Text

  datatype Atom = Boundary | Lit(text: string) | Spaces

  /** Is s[i] a `\w` character (false outside the string)? */
  predicate WordCharAt(s: string, i: int) {
    0 <= i < |s| && IsWordChar(s[i])
  }

  /** `\b` holds at i when exactly one of s[i-1], s[i] is a word character. */
  predicate IsBoundary(s: string, i: int) {
    WordCharAt(s, i - 1) != WordCharAt(s, i)
  }

  /** Does pattern p match s starting at index i? `\s*` tries every
      length, as backtracking does. */
  predicate MatchAt(p: seq<Atom>, s: string, i: nat)
    requires i <= |s|
    decreases |p|, |s| - i
  {
    if p == [] then true
    else match p[0]
      case Boundary => IsBoundary(s, i) && MatchAt(p[1..], s, i)
      case Lit(t) => i + |t| <= |s| && (forall k :: 0 <= k < |t| ==> s[i + k] == t[k]) && MatchAt(p[1..], s, i + |t|)
      case Spaces => MatchAt(p[1..], s, i) || (i < |s| && IsSpace(s[i]) && MatchAt(p, s, i + 1))
  }

  /** `re.test(s)` for an unanchored pattern */
  predicate Test(p: seq<Atom>, s: string) {
    exists i :: 0 <= i <= |s| && MatchAt(p, s, i)
  }

  /** `\bword` */
  function WordStart(w: string): seq<Atom> { [Boundary, Lit(w)] }

  /** `\*\s*word\b` */
  function PointerDecl(w: string): seq<Atom> { [Lit("*"), Spaces, Lit(w), Boundary] }

  /** `\bword\s*->` */
  function ArrowUse(w: string): seq<Atom> { [Boundary, Lit(w), Spaces, Lit("->")] }

  /** `\bword\b\s*=\s*new\b` */
  function NewAlloc(w: string): seq<Atom> {
    [Boundary, Lit(w), Boundary, Spaces, Lit("="), Spaces, Lit("new"), Boundary]
  }

  /** `\bword\.` */
  function DotMember(w: string): seq<Atom> { [Boundary, Lit(w), Lit(".")] }

  /** `\bword\->` */
  function ArrowMember(w: string): seq<Atom> { [Boundary, Lit(w), Lit("->")] }

  /** The number of matches `s.match(/\bword/g)` returns, searching from
      index `from`: each search resumes after the previous match, and one
      further on after an empty match. Zero stands for the `null` that
      `match` returns when nothing matches. */
  function CountFrom(w: string, s: string, from: nat): nat
    decreases |s| + 1 - from
  {
    if from > |s| then 0
    else if MatchAt(WordStart(w), s, from) then 1 + CountFrom(w, s, from + (if |w| == 0 then 1 else |w|))
    else CountFrom(w, s, from + 1)
  }

  function Occurrences(w: string, s: string): nat {
    CountFrom(w, s, 0)
  }

  /** For a word that starts with a word character, `\bword` matches at i
      exactly when the word is there and the character before it is absent
      or not a word character. */
  lemma WordStartAt(w: string, s: string, i: nat)
    requires |w| > 0 && IsWordChar(w[0]) && i <= |s|
    ensures MatchAt(WordStart(w), s, i) <==>
              (i == 0 || !IsWordChar(s[i - 1])) && StartsWith(s[i..], w)
  {
    assert WordStart(w)[1..] == [Lit(w)];
    assert [Lit(w)][1..] == [];
    if StartsWith(s[i..], w) {
      assert s[i] == w[0];
      assert MatchAt([Lit(w)], s, i);
    }
    if MatchAt([Lit(w)], s, i) {
      assert s[i] == w[0];
    }
  }

  /** Two matches of `\bword` for an identifier word never overlap. */
  lemma NoOverlap(w: string, s: string, i: nat, j: nat)
    requires |w| > 0 && AllWordChars(w)
    requires i < j <= |s|
    requires MatchAt(WordStart(w), s, i) && MatchAt(WordStart(w), s, j)
    ensures i + |w| <= j
  {
    assert WordStart(w)[1..] == [Lit(w)];
    NoBoundaryInside(w, s, i, j);
  }

  lemma NoBoundaryInside(w: string, s: string, i: nat, j: nat)
    requires AllWordChars(w) && i < j && i + |w| <= |s|
    requires forall k :: 0 <= k < |w| ==> s[i + k] == w[k]
    ensures j < i + |w| ==> !IsBoundary(s, j)
  {
    if j < i + |w| {
      assert s[i + (j - 1 - i)] == w[j - 1 - i];
      assert s[i + (j - i)] == w[j - i];
    }
  }

  lemma {:induction false} CountSeesOne(w: string, s: string, from: nat, j: nat)
    requires from <= j <= |s| && MatchAt(WordStart(w), s, j)
    ensures CountFrom(w, s, from) >= 1
    decreases j - from
  {
    if !MatchAt(WordStart(w), s, from) {
      CountSeesOne(w, s, from + 1, j);
    }
  }

  /** An identifier that occurs twice as `\bword` makes the global match
      count at least two, whatever stands between the occurrences. */
  lemma {:induction false} CountSeesTwo(w: string, s: string, from: nat, i: nat, j: nat)
    requires |w| > 0 && AllWordChars(w)
    requires from <= i < j <= |s|
    requires MatchAt(WordStart(w), s, i) && MatchAt(WordStart(w), s, j)
    ensures CountFrom(w, s, from) >= 2
    decreases i - from
  {
    NoOverlap(w, s, i, j);
    if MatchAt(WordStart(w), s, from) {
      if from < i {
        NoOverlap(w, s, from, i);
      }
      CountSeesOne(w, s, from + |w|, j);
    } else {
      CountSeesTwo(w, s, from + 1, i, j);
    }
  }

  /** A positive count comes from a match at or after the search start. */
  lemma {:induction false} CountPositive(w: string, s: string, from: nat)
    requires CountFrom(w, s, from) >= 1
    ensures exists j :: from <= j <= |s| && MatchAt(WordStart(w), s, j)
    decreases |s| + 1 - from
  {
    if !MatchAt(WordStart(w), s, from) {
      CountPositive(w, s, from + 1);
    }
  }

  /** A count of two or more comes from two distinct matches at or after
      the search start. */
  lemma {:induction false} CountTwo(w: string, s: string, from: nat)
    requires |w| > 0 && CountFrom(w, s, from) >= 2
    ensures exists i, j :: from <= i < j <= |s| && MatchAt(WordStart(w), s, i) && MatchAt(WordStart(w), s, j)
    decreases |s| + 1 - from
  {
    if MatchAt(WordStart(w), s, from) {
      CountPositive(w, s, from + |w|);
      var j :| from + |w| <= j <= |s| && MatchAt(WordStart(w), s, j);
      assert from < j;
    } else {
      CountTwo(w, s, from + 1);
    }
  }

  /** `\bword` matches nowhere in s. */
  predicate NoWordStart(w: string, s: string) {
    forall k :: 0 <= k <= |s| ==> !MatchAt(WordStart(w), s, k)
  }

  /** `\bword` matches at two distinct places in s. */
  predicate TwoWordStarts(w: string, s: string) {
    exists i, j :: 0 <= i < j <= |s| && MatchAt(WordStart(w), s, i) && MatchAt(WordStart(w), s, j)
  }

  /** `\bword` matches at exactly one place in s. */
  predicate SoleWordStart(w: string, s: string) {
    exists i :: 0 <= i <= |s| && MatchAt(WordStart(w), s, i) &&
      forall k :: 0 <= k <= |s| && MatchAt(WordStart(w), s, k) ==> k == i
  }

  /** The count is 0 exactly when `\bword` matches nowhere. */
  lemma ZeroCount(w: string, s: string)
    ensures Occurrences(w, s) == 0 <==> NoWordStart(w, s)
  {
    if !NoWordStart(w, s) {
      var k :| 0 <= k <= |s| && MatchAt(WordStart(w), s, k);
      CountSeesOne(w, s, 0, k);
    } else {
      CountNone(w, s, 0);
    }
  }

  /** For an identifier word, the count is at least 2 exactly when
      `\bword` matches at two places. */
  lemma TwoCount(w: string, s: string)
    requires |w| > 0 && AllWordChars(w)
    ensures Occurrences(w, s) >= 2 <==> TwoWordStarts(w, s)
  {
    if Occurrences(w, s) >= 2 {
      CountTwo(w, s, 0);
    }
    if TwoWordStarts(w, s) {
      var i, j :| 0 <= i < j <= |s| && MatchAt(WordStart(w), s, i) && MatchAt(WordStart(w), s, j);
      CountSeesTwo(w, s, 0, i, j);
    }
  }

  /** Two distinct matches of an identifier word make the count at least 2. */
  lemma Distinct(w: string, s: string, i: nat, k: nat)
    requires |w| > 0 && AllWordChars(w) && i <= |s| && k <= |s|
    requires MatchAt(WordStart(w), s, i) && MatchAt(WordStart(w), s, k)
    ensures i != k ==> Occurrences(w, s) >= 2
  {
    if k < i {
      CountSeesTwo(w, s, 0, k, i);
    } else if i < k {
      CountSeesTwo(w, s, 0, i, k);
    }
  }

  /** For an identifier word, the global match count is 0 exactly when the
      word starts nowhere, 1 exactly when it starts at one place only, and
      2 or more exactly when it starts at two places or more. */
  lemma OccurrencesCases(w: string, s: string)
    requires |w| > 0 && AllWordChars(w)
    ensures Occurrences(w, s) == 0 <==> NoWordStart(w, s)
    ensures Occurrences(w, s) == 1 <==> SoleWordStart(w, s)
    ensures Occurrences(w, s) >= 2 <==> TwoWordStarts(w, s)
  {
    ZeroCount(w, s);
    TwoCount(w, s);
    if Occurrences(w, s) == 1 {
      CountPositive(w, s, 0);
      var i :| 0 <= i <= |s| && MatchAt(WordStart(w), s, i);
      forall k | 0 <= k <= |s| && MatchAt(WordStart(w), s, k)
        ensures k == i
      {
        Distinct(w, s, i, k);
      }
    }
    if SoleWordStart(w, s) {
      assert !NoWordStart(w, s);
      assert !TwoWordStarts(w, s);
    }
  }

  /** A search that finds nothing counts nothing: `match` returns `null`. */
  lemma {:induction false} CountNone(w: string, s: string, from: nat)
    requires forall k :: from <= k <= |s| ==> !MatchAt(WordStart(w), s, k)
    ensures CountFrom(w, s, from) == 0
    decreases |s| + 1 - from
  {
    if from <= |s| {
      CountNone(w, s, from + 1);
    }
  }
}
