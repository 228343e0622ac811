/** The headline transform of feedprefixer.py: `cyberify_string` and
    `is_replaceable`. The part-of-speech tagger is a foreign library, so its
    output, a sequence of (surface, tag) pairs, is an input here. */
module Transform {
  import opened Strings

  /** A word's surface form as the tagger emits it: never empty. */
  type Surface = s: string | |s| > 0 witness "a"

  datatype TaggedWord = TaggedWord(surface: Surface, tag: string)

  /** The transform's answer: the prefixed text, or the reason the post is skipped. */
  datatype Outcome = Ok(text: string) | NotProcessed(reason: string)

  const MaxLength: nat := 140
  const Marker: string := "cyber"
  const TooLong: string := "tweet is too long"
  const NoChanges: string := "no changes to make"

  /** Singular or plural common noun. */
  predicate IsNounTag(tag: string)
  {
    tag == "NN" || tag == "NNS"
  }

  /** `str.islower()` on one character, restricted to ASCII letters. */
  predicate IsLower(c: char)
  {
    'a' <= c <= 'z'
  }

  /** `is_replaceable`: a noun whose surface starts with a lower-case letter.
      The source's `.isalpha` is never called, so it adds no condition. */
  predicate IsReplaceable(w: TaggedWord)
  {
    IsNounTag(w.tag) && IsLower(w.surface[0])
  }

  /** Position `i` of the tagging is tried by the loop: it is not the first
      word, it is replaceable, and the word before it is not. Trying it rewrites
      the first " w" of the text, wherever that is. */
  predicate Eligible(tagged: seq<TaggedWord>, i: int)
  {
    1 <= i < |tagged| && IsReplaceable(tagged[i]) && !IsReplaceable(tagged[i - 1])
  }

  /** One rewrite: the first " w" becomes " cyberw". */
  function Prefix(text: string, w: Surface): string
  {
    ReplaceFirst(text, " " + w, " " + Marker + w)
  }

  /** The working text once the loop has visited positions 0 .. n-1. */
  function Substituted(headline: string, tagged: seq<TaggedWord>, n: nat): string
    requires n <= |tagged|
  {
    if n == 0 then headline
    else if Eligible(tagged, n - 1) then Prefix(Substituted(headline, tagged, n - 1), tagged[n - 1].surface)
    else Substituted(headline, tagged, n - 1)
  }

  /** How many of the first n positions actually changed the working text. */
  function Hits(headline: string, tagged: seq<TaggedWord>, n: nat): nat
    requires n <= |tagged|
  {
    if n == 0 then 0
    else if Eligible(tagged, n - 1) && Contains(Substituted(headline, tagged, n - 1), " " + tagged[n - 1].surface)
    then Hits(headline, tagged, n - 1) + 1
    else Hits(headline, tagged, n - 1)
  }

  /** The surfaces of the eligible positions among the first n, in order. */
  function EligibleWords(tagged: seq<TaggedWord>, n: nat): seq<Surface>
    requires n <= |tagged|
  {
    if n == 0 then []
    else if Eligible(tagged, n - 1) then EligibleWords(tagged, n - 1) + [tagged[n - 1].surface]
    else EligibleWords(tagged, n - 1)
  }

  /** Prefixes the words of `ws` one after the other. */
  function PrefixAll(text: string, ws: seq<Surface>): string
  {
    if ws == [] then text else Prefix(PrefixAll(text, ws[..|ws| - 1]), ws[|ws| - 1])
  }

  /** `cyberify_string` on a headline and its tagging: the length check comes first. */
  function Cyberify(headline: string, tagged: seq<TaggedWord>): Outcome
  {
    var candidate := Substituted(headline, tagged, |tagged|);
    if |candidate| > MaxLength then NotProcessed(TooLong)
    else if !Contains(candidate, Marker) then NotProcessed(NoChanges)
    else Ok(candidate)
  }

  /** The loop of `cyberify_string`, reassigning the headline word by word. */
  method CyberifyString(headline: string, tagged: seq<TaggedWord>) returns (r: Outcome)
    ensures r == Cyberify(headline, tagged)
  {
    var text := headline;
    for i := 0 to |tagged|
      invariant text == Substituted(headline, tagged, i)
    {
      if i == 0 {
        continue;
      }
      if IsReplaceable(tagged[i]) && !IsReplaceable(tagged[i - 1]) {
        text := ReplaceFirst(text, " " + tagged[i].surface, " cyber" + tagged[i].surface);
      }
    }
    if |text| > MaxLength {
      return NotProcessed(TooLong);
    }
    if !Contains(text, Marker) {
      return NotProcessed(NoChanges);
    }
    return Ok(text);
  }

  // ---------------------------------------------------------------------
  // Properties of the transform

  /** A word whose tag is not NN or NNS, or whose surface does not start with
      a lower-case letter, is never tried, wherever it occurs in the tagging. */
  lemma NotReplaceableNeverTried(tagged: seq<TaggedWord>, w: Surface)
    requires forall i :: 0 <= i < |tagged| && tagged[i].surface == w ==>
      (tagged[i].tag != "NN" && tagged[i].tag != "NNS") || !('a' <= w[0] <= 'z')
    ensures w !in EligibleWords(tagged, |tagged|)
  {
    EligibleWordsExactly(tagged, |tagged|, w);
  }

  /** The first position is never eligible, and no two neighbouring positions are
      both eligible. The rewrite itself may still land elsewhere in the text
      (see `Scenarios.NeighboursMayBothBePrefixed`). */
  lemma NoAdjacentEligible(tagged: seq<TaggedWord>, i: int)
    ensures !Eligible(tagged, 0)
    ensures Eligible(tagged, i) ==> !Eligible(tagged, i + 1) && !Eligible(tagged, i - 1)
  {
  }

  /** Which words are tried depends only on the tagging, never on the text as
      it is being rewritten. */
  lemma {:induction false} SubstitutionFollowsTagging(headline: string, tagged: seq<TaggedWord>, n: nat)
    requires n <= |tagged|
    ensures Substituted(headline, tagged, n) == PrefixAll(headline, EligibleWords(tagged, n))
  {
    if n > 0 {
      SubstitutionFollowsTagging(headline, tagged, n - 1);
      var ws := EligibleWords(tagged, n);
      if Eligible(tagged, n - 1) {
        assert ws[..|ws| - 1] == EligibleWords(tagged, n - 1);
      }
    }
  }

  /** Every word the loop tries comes from an eligible position, and every
      eligible position's word is tried. */
  lemma {:induction false} EligibleWordsExactly(tagged: seq<TaggedWord>, n: nat, w: Surface)
    requires n <= |tagged|
    ensures w in EligibleWords(tagged, n) <==> exists i :: 0 <= i < n && Eligible(tagged, i) && tagged[i].surface == w
  {
    if n > 0 {
      EligibleWordsExactly(tagged, n - 1, w);
    }
  }

  /** One rewrite adds exactly five characters, or changes nothing when " w" is absent. */
  lemma PrefixGrowth(text: string, w: Surface)
    ensures Contains(text, " " + w) ==> |Prefix(text, w)| == |text| + |Marker| && Occurs(Prefix(text, w), Marker)
    ensures !Contains(text, " " + w) ==> Prefix(text, w) == text
  {
    var rep := " " + Marker + w;
    ContainsExactly(text, " " + w);
    ReplaceFirstExactly(text, " " + w, rep);
    if Occurs(text, " " + w) {
      var r := Prefix(text, w);
      var i :| OccursAt(r, rep, i);
      OccursWithin(r, rep, i, 1, |Marker|);
      assert rep[1..1 + |Marker|] == Marker;
    }
  }

  /** When the first " w" of `s` is at `i`, the rewrite happens there. */
  lemma PrefixAt(s: string, w: Surface, i: nat)
    requires OccursAt(s, " " + w, i)
    requires forall j :: 0 <= j < i ==> !OccursAt(s, " " + w, j)
    ensures Prefix(s, w) == s[..i] + (" cyber" + w) + s[i + 1 + |w|..]
  {
    ReplaceFirstAt(s, " " + w, " " + Marker + w, i);
    assert " " + Marker + w == " cyber" + w;
  }

  /** Length after the loop: the headline plus five characters per rewrite that
      took effect, and at most one rewrite per eligible position. */
  lemma {:induction false} SubstitutedLength(headline: string, tagged: seq<TaggedWord>, n: nat)
    requires n <= |tagged|
    ensures |Substituted(headline, tagged, n)| == |headline| + |Marker| * Hits(headline, tagged, n)
    ensures Hits(headline, tagged, n) <= |EligibleWords(tagged, n)|
  {
    if n > 0 {
      SubstitutedLength(headline, tagged, n - 1);
      PrefixGrowth(Substituted(headline, tagged, n - 1), tagged[n - 1].surface);
    }
  }

  /** With no rewrite taking effect, the text is the headline itself. */
  lemma {:induction false} UnchangedWithoutHits(headline: string, tagged: seq<TaggedWord>, n: nat)
    requires n <= |tagged|
    ensures Hits(headline, tagged, n) == 0 <==> Substituted(headline, tagged, n) == headline
  {
    SubstitutedLength(headline, tagged, n);
    if n > 0 && Hits(headline, tagged, n) == 0 {
      UnchangedWithoutHits(headline, tagged, n - 1);
      PrefixGrowth(Substituted(headline, tagged, n - 1), tagged[n - 1].surface);
    }
  }

  /** The text after the loop holds "cyber" exactly when the headline did or
      some rewrite took effect. */
  lemma {:induction false} MarkerAfterSubstitution(headline: string, tagged: seq<TaggedWord>, n: nat)
    requires n <= |tagged|
    ensures Occurs(Substituted(headline, tagged, n), Marker) <==> Occurs(headline, Marker) || Hits(headline, tagged, n) > 0
  {
    if n > 0 {
      MarkerAfterSubstitution(headline, tagged, n - 1);
      var prev := Substituted(headline, tagged, n - 1);
      PrefixGrowth(prev, tagged[n - 1].surface);
    }
  }

  /** A successful transform is short enough, carries "cyber", and grew the
      headline by five characters per rewrite. */
  lemma SuccessIsShortAndPrefixed(headline: string, tagged: seq<TaggedWord>)
    ensures Cyberify(headline, tagged).Ok? ==>
      var text := Cyberify(headline, tagged).text;
      |text| <= MaxLength && Occurs(text, Marker) &&
      exists k :: 0 <= k <= |EligibleWords(tagged, |tagged|)| && |text| == |headline| + 5 * k
  {
    SubstitutedLength(headline, tagged, |tagged|);
    ContainsExactly(Substituted(headline, tagged, |tagged|), Marker);
  }

  /** "tweet is too long" is answered exactly when the rewritten text exceeds
      140 characters, whether or not it holds "cyber". */
  lemma TooLongCheckedFirst(headline: string, tagged: seq<TaggedWord>)
    ensures Cyberify(headline, tagged) == NotProcessed(TooLong) <==>
      |headline| + |Marker| * Hits(headline, tagged, |tagged|) > MaxLength
  {
    SubstitutedLength(headline, tagged, |tagged|);
  }

  /** "no changes to make" is answered exactly when the text fits, nothing was
      rewritten and the headline did not already hold "cyber". */
  lemma NoChangesExactly(headline: string, tagged: seq<TaggedWord>)
    ensures Cyberify(headline, tagged) == NotProcessed(NoChanges) <==>
      |headline| <= MaxLength && Hits(headline, tagged, |tagged|) == 0 && !Occurs(headline, Marker)
  {
    SubstitutedLength(headline, tagged, |tagged|);
    MarkerAfterSubstitution(headline, tagged, |tagged|);
    ContainsExactly(Substituted(headline, tagged, |tagged|), Marker);
  }

  /** The only reasons the transform gives are the two above. */
  lemma OnlyTwoReasons(headline: string, tagged: seq<TaggedWord>)
    ensures Cyberify(headline, tagged).NotProcessed? ==> Cyberify(headline, tagged).reason in {TooLong, NoChanges}
  {
  }

  /** A headline that already holds "cyber" and fits is accepted even when no
      rewrite takes effect. */
  lemma AlreadyPrefixedSucceeds(headline: string, tagged: seq<TaggedWord>)
    requires Occurs(headline, Marker) && |headline| <= MaxLength
    requires Hits(headline, tagged, |tagged|) == 0
    ensures Cyberify(headline, tagged) == Ok(headline)
  {
    UnchangedWithoutHits(headline, tagged, |tagged|);
    ContainsExactly(headline, Marker);
  }
}
