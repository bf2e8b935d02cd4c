/**
 * Decision extraction performed by check() once the status page has been
 * fetched: the text of the status area is lowercased and searched for the
 * pattern `admission decision: ([a-z]+)`; the captured word is the decision.
 * The regular expression is written out directly as a leftmost search for
 * the literal prefix followed by a maximal run of letters a-z.
 */
module Extraction {
  import opened Wrappers

  /** The literal part of the pattern. */
  const Needle: string := "admission decision: "

  /** The character class [a-z]. */
  predicate IsLetter(c: char) { 'a' <= c <= 'z' }

  predicate IsUpper(c: char) { 'A' <= c <= 'Z' }

  /** strings.ToLower restricted to ASCII: upper-case letters are shifted down. */
  function LowerChar(c: char): (d: char)
    ensures IsUpper(c) ==> IsLetter(d) && d as int - c as int == 'a' as int - 'A' as int
    ensures !IsUpper(c) ==> d == c
  {
    if IsUpper(c) then (c as int + ('a' as int - 'A' as int)) as char else c
  }

  /** The lowercased text: same length, no upper-case letter left, and a
      position holds a letter a-z exactly when the input held a letter of
      either case there. */
  function Lower(s: string): (t: string)
    ensures |t| == |s|
    ensures forall i :: 0 <= i < |s| ==> !IsUpper(t[i])
    ensures forall i :: 0 <= i < |s| ==> (IsLetter(t[i]) <==> IsLetter(s[i]) || IsUpper(s[i]))
    ensures forall i :: 0 <= i < |s| && !IsUpper(s[i]) ==> t[i] == s[i]
    ensures forall i :: 0 <= i < |s| && IsUpper(s[i]) ==> t[i] as int == s[i] as int + ('a' as int - 'A' as int)
  {
    seq(|s|, i requires 0 <= i < |s| => LowerChar(s[i]))
  }

  /** The literal prefix occurs at position i of t. */
  predicate PrefixAt(t: string, i: nat) {
    i + |Needle| <= |t| && t[i..i + |Needle|] == Needle
  }

  /** The whole pattern matches at position i of t. */
  predicate MatchAt(t: string, i: nat) {
    PrefixAt(t, i) && i + |Needle| < |t| && IsLetter(t[i + |Needle|])
  }

  /** i is the leftmost position at which the pattern matches. */
  predicate LeftmostMatch(t: string, i: nat) {
    MatchAt(t, i) && forall j :: 0 <= j < i ==> !MatchAt(t, j)
  }

  /** w is the longest run of letters a-z starting at position k of t. */
  predicate MaximalRun(t: string, k: nat, w: string) {
    k + |w| <= |t| && t[k..k + |w|] == w &&
    (forall c :: 0 <= c < |w| ==> IsLetter(w[c])) &&
    (k + |w| == |t| || !IsLetter(t[k + |w|]))
  }

  /** The greedy `[a-z]+` part: the run of letters that starts at k. */
  function LetterRun(t: string, k: nat): (w: string)
    requires k <= |t|
    ensures MaximalRun(t, k, w)
    decreases |t| - k
  {
    if k < |t| && IsLetter(t[k]) then [t[k]] + LetterRun(t, k + 1) else []
  }

  /** The leftmost position at or after i where the pattern matches. */
  function FindFrom(t: string, i: nat): (r: Option<nat>)
    ensures r.Some? ==> i <= r.value && MatchAt(t, r.value) &&
                        forall j :: i <= j < r.value ==> !MatchAt(t, j)
    ensures r.None? ==> forall j :: i <= j ==> !MatchAt(t, j)
    decreases |t| - i
  {
    if |t| <= i + |Needle| then None
    else if MatchAt(t, i) then Some(i)
    else FindFrom(t, i + 1)
  }

  /**
   * FindStringSubmatch on the lowercased status text: Some(word) exactly
   * when the pattern occurs, and then word is the maximal run of letters
   * after the leftmost occurrence.
   */
  function Extract(status: string): (r: Option<string>)
    ensures r.Some? <==> exists i :: MatchAt(Lower(status), i)
    ensures r.Some? ==> |r.value| >= 1
    ensures r.Some? ==>
      exists i: nat :: LeftmostMatch(Lower(status), i) && MaximalRun(Lower(status), i + |Needle|, r.value)
  {
    var t := Lower(status);
    match FindFrom(t, 0)
    case None => None
    case Some(i) =>
      var w := LetterRun(t, i + |Needle|);
      assert LeftmostMatch(t, i) && MaximalRun(t, i + |Needle|, w);
      Some(w)
  }

  /** Lowercasing twice is lowercasing once. */
  lemma LowerIdempotent(s: string)
    ensures Lower(Lower(s)) == Lower(s)
  {
    var t := Lower(s);
    assert forall i :: 0 <= i < |t| ==> Lower(t)[i] == t[i];
  }

  /** The match is case-insensitive: the result depends only on the lowercased text. */
  lemma ExtractIgnoresCase(status: string)
    ensures Extract(status) == Extract(Lower(status))
  {
    LowerIdempotent(status);
  }

  /** The maximal run starting at a position is unique: it is LetterRun's. */
  lemma {:induction false} MaximalRunIsLetterRun(t: string, k: nat, w: string)
    requires MaximalRun(t, k, w)
    ensures w == LetterRun(t, k)
    decreases |t| - k
  {
    if k < |t| && IsLetter(t[k]) {
      assert w != [];
      assert t[k + 1..k + |w|] == w[1..];
      MaximalRunIsLetterRun(t, k + 1, w[1..]);
    }
  }

  /** Extraction is determined: any word that is the maximal run after the
      leftmost occurrence is the word Extract returns. */
  lemma ExtractComplete(status: string, i: nat, w: string)
    requires LeftmostMatch(Lower(status), i) && MaximalRun(Lower(status), i + |Needle|, w)
    ensures Extract(status) == Some(w)
  {
    var t := Lower(status);
    var found := FindFrom(t, 0);
    assert found.Some?;
    var j := found.value;
    assert i == j;
    MaximalRunIsLetterRun(t, i + |Needle|, w);
  }

  const AdmittedText: string := "Your admission decision: Admitted"

  lemma AdmittedLowered(status: string)
    requires status == AdmittedText
    ensures Lower(status) == "your admission decision: admitted"
  {
    var t, expected := Lower(status), "your admission decision: admitted";
    assert forall i :: 0 <= i < |t| ==> t[i] == expected[i];
  }

  lemma AdmittedMatches(t: string)
    requires t == "your admission decision: admitted"
    ensures LeftmostMatch(t, 5) && MaximalRun(t, 5 + |Needle|, "admitted")
  {
    assert forall j :: 0 <= j < 5 ==> t[j] != Needle[0];
    assert forall k :: 0 <= k < |Needle| ==> t[5 + k] == Needle[k];
    assert forall k :: 0 <= k < 8 ==> t[25 + k] == "admitted"[k];
  }

  /** The status text of an admitted applicant yields the word "admitted". */
  lemma AdmittedExample(status: string)
    requires status == AdmittedText
    ensures Extract(status) == Some("admitted")
  {
    AdmittedLowered(status);
    AdmittedMatches(Lower(status));
    ExtractComplete(status, 5, "admitted");
  }

  /** Text without the prefix never releases a decision. */
  lemma NoPrefixNoDecision(status: string)
    requires forall i: nat :: !PrefixAt(Lower(status), i)
    ensures Extract(status) == None
  {
  }
}
