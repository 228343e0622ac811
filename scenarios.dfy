/** Worked inputs for the transform and the engine. */
module Scenarios {
  import opened Strings
  import opened Transform
  import opened Engine

  /** A noun in first position is never tried, so this headline has no changes. */
  lemma FirstWordIsNotPrefixed()
    ensures Cyberify("dogs are great",
                     [TaggedWord("dogs", "NNS"), TaggedWord("are", "VBP"), TaggedWord("great", "JJ")])
            == NotProcessed(NoChanges)
  {
    var h := "dogs are great";
    var t := [TaggedWord("dogs", "NNS"), TaggedWord("are", "VBP"), TaggedWord("great", "JJ")];
    assert !Eligible(t, 0) && !Eligible(t, 1) && !Eligible(t, 2);
    assert Substituted(h, t, 3) == h;
    AbsentInitial(h, Marker);
    ContainsExactly(h, Marker);
  }

  /** A lower-case noun after a non-noun gets the prefix. */
  lemma NounIsPrefixed(h: string, t: seq<TaggedWord>)
    requires h == "I love my cat"
    requires t == [TaggedWord("I", "PRP"), TaggedWord("love", "VBP"), TaggedWord("my", "PRP$"), TaggedWord("cat", "NN")]
    ensures Cyberify(h, t) == Ok("I love my cybercat")
  {
    CatText(h, t[3].surface);
    NoEarlierOccurrence(h, " " + t[3].surface, 9);
    OnlyLastRewritten(h, t, 9);
    MarkerAt("I love my cybercat", 10);
    Accepted(h, t, "I love my cybercat");
  }

  lemma CatText(h: string, w: Surface)
    requires h == "I love my cat" && w == "cat"
    ensures OccursAt(h, " " + w, 9)
    ensures forall j :: 0 <= j < 9 ==> h[j] != ' ' || h[j + 1] != w[0]
    ensures h[..9] + (" cyber" + w) + h[9 + 1 + |w|..] == "I love my cybercat"
  {
    assert h[9..13] == [h[9], h[10], h[11], h[12]];
    assert h[..9] == "I love my" && h[13..] == [];
  }

  /** The rewrite hits the first " w" in the text, which need not be the tagged
      word: here "catalog" (not eligible, it follows the noun "dog") is
      prefixed instead of "cat". */
  lemma FirstOccurrenceMayMissTaggedWord(h: string, t: seq<TaggedWord>)
    requires h == "dog catalog and cat"
    requires t == [TaggedWord("dog", "NN"), TaggedWord("catalog", "NN"), TaggedWord("and", "CC"), TaggedWord("cat", "NN")]
    ensures !Eligible(t, 1) && Eligible(t, 3)
    ensures Substituted(h, t, |t|) == "dog cybercatalog and cat"
  {
    CatalogText(h, t[3].surface);
    NoEarlierOccurrence(h, " " + t[3].surface, 3);
    OnlyLastRewritten(h, t, 3);
  }

  lemma CatalogText(h: string, w: Surface)
    requires h == "dog catalog and cat" && w == "cat"
    ensures OccursAt(h, " " + w, 3)
    ensures forall j :: 0 <= j < 3 ==> h[j] != ' ' || h[j + 1] != w[0]
    ensures h[..3] + (" cyber" + w) + h[3 + 1 + |w|..] == "dog cybercatalog and cat"
  {
    assert h[3..7] == [h[3], h[4], h[5], h[6]];
    CatalogSplice(h[..3], " cyber" + w, h[7..]);
  }

  /** Of four words only the last is eligible, and the first " w" for it is at `i`. */
  lemma OnlyLastRewritten(h: string, t: seq<TaggedWord>, i: nat)
    requires |t| == 4 && !Eligible(t, 1) && !Eligible(t, 2) && Eligible(t, 3)
    requires OccursAt(h, " " + t[3].surface, i)
    requires forall j :: 0 <= j < i ==> !OccursAt(h, " " + t[3].surface, j)
    ensures Substituted(h, t, 4) == h[..i] + (" cyber" + t[3].surface) + h[i + 1 + |t[3].surface|..]
  {
    assert Substituted(h, t, 3) == Substituted(h, t, 2) == Substituted(h, t, 1) == h;
    PrefixAt(h, t[3].surface, i);
  }

  /** Eligibility keeps two neighbouring positions from both being tried, but
      not the text from ending up with two neighbouring prefixed words: "dog" is
      prefixed at index 1, and the eligible "cat" at index 4 rewrites the first
      " cat", the one at index 2 right after "dog". */
  lemma NeighboursMayBothBePrefixed(h: string, t: seq<TaggedWord>)
    requires h == "x dog cat y cat"
    requires t == [TaggedWord("x", "DT"), TaggedWord("dog", "NN"), TaggedWord("cat", "NN"),
                   TaggedWord("y", "DT"), TaggedWord("cat", "NN")]
    ensures Eligible(t, 1) && !Eligible(t, 2) && !Eligible(t, 3) && Eligible(t, 4)
    ensures Substituted(h, t, |t|) == "x cyberdog cybercat y cat"
  {
    assert |t| == 5 && t[1].surface == "dog" && t[4].surface == "cat";
    assert Eligible(t, 1) && !Eligible(t, 2) && !Eligible(t, 3) && Eligible(t, 4);
    SecondAndLastRewritten(h, t);
    DogThenCat(h, t[1].surface, t[4].surface);
  }

  /** Prefixing "dog" and then "cat" in "x dog cat y cat". */
  lemma DogThenCat(h: string, dog: Surface, cat: Surface)
    requires h == "x dog cat y cat" && dog == "dog" && cat == "cat"
    ensures Prefix(Prefix(h, dog), cat) == "x cyberdog cybercat y cat"
  {
    DogText(h, dog);
    NoEarlierOccurrence(h, " " + dog, 1);
    PrefixAt(h, dog, 1);
    var mid := "x cyberdog cat y cat";
    assert Prefix(h, dog) == mid;
    SecondCatText(mid, cat);
    NoEarlierOccurrence(mid, " " + cat, 10);
    PrefixAt(mid, cat, 10);
  }

  /** Of five words only the second and the last are eligible. */
  lemma SecondAndLastRewritten(h: string, t: seq<TaggedWord>)
    requires |t| == 5 && Eligible(t, 1) && !Eligible(t, 2) && !Eligible(t, 3) && Eligible(t, 4)
    ensures Substituted(h, t, 5) == Prefix(Prefix(h, t[1].surface), t[4].surface)
  {
    NoAdjacentEligible(t, 1);
    assert Substituted(h, t, 1) == h;
    assert Substituted(h, t, 4) == Substituted(h, t, 3) == Substituted(h, t, 2);
  }

  lemma DogText(h: string, w: Surface)
    requires h == "x dog cat y cat" && w == "dog"
    ensures OccursAt(h, " " + w, 1)
    ensures forall j :: 0 <= j < 1 ==> h[j] != ' '
    ensures h[..1] + (" cyber" + w) + h[1 + 1 + |w|..] == "x cyberdog cat y cat"
  {
    assert h[1..5] == [h[1], h[2], h[3], h[4]];
    DogSplice(h[..1], " cyber" + w, h[5..]);
  }

  lemma SecondCatText(s: string, w: Surface)
    requires s == "x cyberdog cat y cat" && w == "cat"
    ensures OccursAt(s, " " + w, 10)
    ensures forall j :: 0 <= j < 10 ==> s[j] != ' ' || s[j + 1] != w[0] || s[j + 2] != w[1]
    ensures s[..10] + (" cyber" + w) + s[10 + 1 + |w|..] == "x cyberdog cybercat y cat"
  {
    assert s[10..14] == [s[10], s[11], s[12], s[13]];
    SecondCatSplice(s[..10], " cyber" + w, s[14..]);
  }

  lemma CatalogSplice(a: string, b: string, c: string)
    requires a == "dog" && b == " cybercat" && c == "alog and cat"
    ensures a + b + c == "dog cybercatalog and cat"
  {
  }

  lemma DogSplice(a: string, b: string, c: string)
    requires a == "x" && b == " cyberdog" && c == " cat y cat"
    ensures a + b + c == "x cyberdog cat y cat"
  {
  }

  lemma SecondCatSplice(a: string, b: string, c: string)
    requires a == "x cyberdog" && b == " cybercat" && c == " y cat"
    ensures a + b + c == "x cyberdog cybercat y cat"
  {
  }

  lemma MarkerAt(r: string, i: nat)
    requires i + 5 <= |r| && r[i] == 'c' && r[i + 1] == 'y' && r[i + 2] == 'b' && r[i + 3] == 'e' && r[i + 4] == 'r'
    ensures Occurs(r, Marker)
  {
    assert r[i..i + 5] == Marker;
    assert OccursAt(r, Marker, i);
  }

  /** A rewritten text that fits and holds "cyber" is the transform's answer. */
  lemma Accepted(h: string, t: seq<TaggedWord>, r: string)
    requires Substituted(h, t, |t|) == r && |r| <= MaxLength && Occurs(r, Marker)
    ensures Cyberify(h, t) == Ok(r)
  {
    ContainsExactly(r, Marker);
  }

  /** A retweet and a headline with nothing to prefix: nothing is tweeted, and
      the cursor still moves to the newest status. */
  lemma SkippedBatchStillAdvances(tagger: string -> seq<TaggedWord>)
    requires tagger("dogs are great") ==
      [TaggedWord("dogs", "NNS"), TaggedWord("are", "VBP"), TaggedWord("great", "JJ")]
    ensures var fetched := [Post(6, "I love my cat", true, []), Post(5, "dogs are great", false, [])];
      Outputs(tagger, OldestFirst(fetched)) == [] && NextCursor(4, fetched) == 6
  {
    var fetched := [Post(6, "I love my cat", true, []), Post(5, "dogs are great", false, [])];
    FirstWordIsNotPrefixed();
    OldestFirstAt(fetched);
    SkippedBatchTweetsNothing(tagger, [fetched[0]]);
    assert OldestFirst(fetched) == [fetched[1], fetched[0]];
    assert OldestFirst(fetched)[..1] == [fetched[1]];
  }
}
