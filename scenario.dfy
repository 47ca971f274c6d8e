/**
 * Worked cases of the suggestion engine on a three-word dictionary, and
 * the effect of typing a word on later rankings.
 */
module Scenario {
  import opened Text
  import opened Ngrams
  import opened Ranking

  /** A three-letter word starting with CA holds the bigram CA once. */
  lemma CaOnce(w: string)
    requires |w| == 3 && w[0] == 'C' && w[1] == 'A'
    ensures Occurrences(w, "CA", 2) == 1
  {
    assert w[0..2] == "CA";
    assert w[1..3][0] != 'C';
    assert OccPrefix(w, "CA", 2, 1) == 1;
  }

  lemma DogHasNoCa()
    ensures Occurrences("DOG", "CA", 2) == 0
  {
    assert "DOG"[0..2][0] != 'C';
    assert "DOG"[1..3][0] != 'C';
    assert OccPrefix("DOG", "CA", 2, 1) == 0;
  }

  /** An upper-case word contributes itself once per occurrence of the gram. */
  lemma EntryOfWord(w: string, n: nat, g: string)
    requires IsUpperWord(w)
    ensures Entry(w, n, g) == Repeat(w, Occurrences(w, g, n))
  {
    UpperOfUpperWord(w);
  }

  lemma PostingsThree(a: string, b: string, c: string, n: nat, g: string)
    ensures Postings([a, b, c], n, g) == Entry(a, n, g) + Entry(b, n, g) + Entry(c, n, g)
  {
    assert [a, b, c][..2] == [a, b] && [a, b][..1] == [a] && [a][..0] == [];
    assert Postings([a, b, c], n, g) == Postings([a, b], n, g) + Entry(c, n, g);
    assert Postings([a, b], n, g) == Postings([a], n, g) + Entry(b, n, g);
    assert Postings([a], n, g) == Entry(a, n, g);
  }

  /** A three-letter upper-case word starting with CA is filed once under CA. */
  lemma CaEntry(w: string)
    requires IsUpperWord(w) && |w| == 3 && w[0] == 'C' && w[1] == 'A'
    ensures Entry(w, 2, "CA") == [w]
  {
    CaOnce(w);
    EntryOfWord(w, 2, "CA");
    assert Repeat(w, 1) == [w];
  }

  lemma DogEntry(w: string)
    requires w == "DOG"
    ensures Entry(w, 2, "CA") == []
  {
    DogHasNoCa();
    EntryOfWord(w, 2, "CA");
  }

  /** Indexing the sorted list CAR, CAT, DOG files CAR and CAT, in that order, under CA, and not DOG. */
  lemma CaPostings(car: string, cat: string, dog: string)
    requires car == "CAR" && cat == "CAT" && dog == "DOG"
    ensures Postings([car, cat, dog], 2, "CA") == [car, cat]
  {
    PostingsThree(car, cat, dog, 2, "CA");
    CaEntry(car);
    CaEntry(cat);
    DogEntry(dog);
  }

  lemma CaWordScore(w: string)
    requires |w| == 3 && w[0] == 'C' && w[1] == 'A' && (w[2] == 'R' || w[2] == 'T')
    ensures ScoreWord(w, {}) == Score(3, 3, -3)
  {
    assert Chars(w) == {'C', 'A', w[2]};
    assert Chars(w) - {} == Chars(w);
    assert |{'C', 'A', w[2]}| == 3;
    FreqSumCountsDistinctLetters(w);
  }

  /** Two eligible hits with equal scores keep their order in the ranking. */
  lemma TiedPairKeepsOrder(a: string, b: string, minLength: int, used: set<string>, typed: set<char>)
    requires |a| >= minLength && |b| >= minLength && a !in used && b !in used
    requires ScoreWord(a, typed) == ScoreWord(b, typed)
    ensures RankMatches([a, b], minLength, used, typed) == [a, b]
  {
    var e := [a, b];
    assert e[..1] == [a] && [a][..0] == [];
    assert Eligible([a], minLength, used) == [a];
    assert Eligible(e, minLength, used) == e;
    assert SortByScore([a], Scorer(typed)) == [a];
    assert !Below(Scorer(typed)(a), Scorer(typed)(b));
    assert SortByScore(e, Scorer(typed)) == Insert(b, [a], Scorer(typed));
  }

  /**
   * With nothing typed yet, the prompt CA ranks CAR before CAT: both score
   * (3, 3, -3), and the stable sort keeps their dictionary order.
   */
  lemma CaRanking(car: string, cat: string, dog: string)
    requires car == "CAR" && cat == "CAT" && dog == "DOG"
    ensures RankMatches(Postings([car, cat, dog], 2, "CA"), 1, {}, {}) == [car, cat]
  {
    CaPostings(car, cat, dog);
    CaWordScore(car);
    CaWordScore(cat);
    TiedPairKeepsOrder(car, cat, 1, {}, {});
  }

  /** Once a word is typed it is a used word, and no later ranking lists it. */
  lemma TypedWordIsExcluded(hits: seq<string>, minLength: int, used: set<string>, typed: set<char>, text: string)
    ensures Upper(text) !in RankMatches(hits, minLength, used + {Upper(text)}, typed + Chars(Upper(text)))
  {
    RankMatchesSpec(hits, minLength, used + {Upper(text)}, typed + Chars(Upper(text)));
  }
}
