/** The keyword comparison of the résumé analyser: the job description's
    keywords split into those the résumé has (matched) and those it lacks
    (missing), each listed in ascending order, with an integer percentage
    score. */
module Analysis {
  import opened StringOrder
  import opened Sorting
  import opened Rounding

  /** A keyword collection as handed to the comparison: normally a set, but
      any other iterable (a list, say) is accepted and coerced to a set. */
  datatype Keywords = KeywordSet(items: set<string>) | KeywordList(entries: seq<string>)

  /** The collection as a set: unchanged if it is one, `set(...)` otherwise.
      A list gives the set of its entries, which is never larger than the
      list, as repeated entries collapse. */
  function AsSet(k: Keywords): (s: set<string>)
    ensures k.KeywordSet? ==> s == k.items
    ensures k.KeywordList? ==> (forall w :: w in s <==> w in k.entries) && |s| <= |k.entries|
  {
    match k
    case KeywordSet(items) => items
    case KeywordList(entries) =>
      DistinctEntriesBound(entries);
      set w | w in entries
  }

  /** A list has at most as many distinct entries as it has entries. */
  lemma {:induction false} DistinctEntriesBound(entries: seq<string>)
    ensures |set w | w in entries| <= |entries|
  {
    if entries != [] {
      DistinctEntriesBound(entries[1..]);
      assert (set w | w in entries) == (set w | w in entries[1..]) + {entries[0]};
    }
  }

  /** The record the comparison returns. */
  datatype Comparison = Comparison(matchScore: nat, matchedKeywords: seq<string>, missingKeywords: seq<string>)

  lemma SubsetSize(a: set<string>, b: set<string>)
    requires a <= b
    ensures |a| <= |b|
  {
    assert b == a + (b - a);
  }

  /** The score: the rounded percentage of job-description keywords the
      résumé has; with no job-description keywords, 100 only when the résumé
      has none either. */
  function MatchScore(resume: set<string>, jd: set<string>): (score: nat)
    ensures score <= 100
    ensures jd != {} ==> IsHalfEvenRounding(score, 100 * |jd * resume|, |jd|)
    ensures jd == {} ==> (score == 100 <==> resume == {})
    ensures jd == {} ==> (score == 0 <==> resume != {})
  {
    if jd != {} then
      SubsetSize(jd * resume, jd);
      RoundHalfEvenMonotone(100 * |jd * resume|, 100 * |jd|, |jd|);
      RoundHalfEvenOfInteger(100, |jd|);
      RoundHalfEven(100 * |jd * resume|, |jd|)
    else if resume == {} then 100
    else 0
  }

  /** `compare_keywords(resume_keywords, jd_keywords)`. */
  function CompareKeywords(resumeKeywords: Keywords, jdKeywords: Keywords): (r: Comparison)
    ensures StrictlyAscending(r.matchedKeywords)
    ensures forall w :: w in r.matchedKeywords <==> w in AsSet(jdKeywords) && w in AsSet(resumeKeywords)
    ensures StrictlyAscending(r.missingKeywords)
    ensures forall w :: w in r.missingKeywords <==> w in AsSet(jdKeywords) && w !in AsSet(resumeKeywords)
    ensures r.matchScore <= 100
    ensures AsSet(jdKeywords) != {} ==>
              IsHalfEvenRounding(r.matchScore, 100 * |r.matchedKeywords|, |AsSet(jdKeywords)|)
    ensures AsSet(jdKeywords) == {} ==> r.matchScore == (if AsSet(resumeKeywords) == {} then 100 else 0)
  {
    var resume := AsSet(resumeKeywords);
    var jd := AsSet(jdKeywords);
    SortedListElements(jd * resume);
    SortedListElements(jd - resume);
    Comparison(MatchScore(resume, jd), SortedList(jd * resume), SortedList(jd - resume))
  }

  /** Matched and missing keywords partition the job-description keywords:
      together they are exactly that set, with no keyword in both. */
  lemma Partition(resumeKeywords: Keywords, jdKeywords: Keywords)
    ensures var r := CompareKeywords(resumeKeywords, jdKeywords);
      && (forall w :: w in AsSet(jdKeywords) <==> w in r.matchedKeywords || w in r.missingKeywords)
      && (forall w :: !(w in r.matchedKeywords && w in r.missingKeywords))
      && |r.matchedKeywords| + |r.missingKeywords| == |AsSet(jdKeywords)|
  {
    var resume, jd := AsSet(resumeKeywords), AsSet(jdKeywords);
    SortedListElements(jd * resume);
    SortedListElements(jd - resume);
    assert jd == (jd * resume) + (jd - resume);
  }

  /** A non-empty job description whose every keyword the résumé has scores
      100 with nothing missing. */
  lemma FullMatch(resumeKeywords: Keywords, jdKeywords: Keywords)
    requires AsSet(jdKeywords) != {} && AsSet(jdKeywords) <= AsSet(resumeKeywords)
    ensures CompareKeywords(resumeKeywords, jdKeywords).matchScore == 100
    ensures CompareKeywords(resumeKeywords, jdKeywords).missingKeywords == []
  {
    var resume, jd := AsSet(resumeKeywords), AsSet(jdKeywords);
    assert jd * resume == jd;
    assert jd - resume == {};
    RoundHalfEvenOfInteger(100, |jd|);
  }

  /** A non-empty job description sharing no keyword with the résumé scores
      0 with nothing matched. */
  lemma NoMatch(resumeKeywords: Keywords, jdKeywords: Keywords)
    requires AsSet(jdKeywords) != {} && AsSet(jdKeywords) !! AsSet(resumeKeywords)
    ensures CompareKeywords(resumeKeywords, jdKeywords).matchScore == 0
    ensures CompareKeywords(resumeKeywords, jdKeywords).matchedKeywords == []
  {
    var resume, jd := AsSet(resumeKeywords), AsSet(jdKeywords);
    assert jd * resume == {};
    RoundHalfEvenOfInteger(0, |jd|);
  }

  /** For a fixed non-empty job description, more matched keywords never
      lower the score. */
  lemma ScoreMonotone(resume1: set<string>, resume2: set<string>, jd: set<string>)
    requires jd != {} && |jd * resume1| <= |jd * resume2|
    ensures |CompareKeywords(KeywordSet(resume1), KeywordSet(jd)).matchedKeywords| == |jd * resume1|
    ensures CompareKeywords(KeywordSet(resume1), KeywordSet(jd)).matchScore
         <= CompareKeywords(KeywordSet(resume2), KeywordSet(jd)).matchScore
  {
    SortedListElements(jd * resume1);
    RoundHalfEvenMonotone(100 * |jd * resume1|, 100 * |jd * resume2|, |jd|);
  }

  /** With a non-empty job description, résumé keywords outside it change
      nothing in the result. */
  lemma OutsideKeywordsIrrelevant(resume: set<string>, extra: set<string>, jd: set<string>)
    requires jd != {} && extra !! jd
    ensures CompareKeywords(KeywordSet(resume + extra), KeywordSet(jd))
         == CompareKeywords(KeywordSet(resume), KeywordSet(jd))
  {
    assert jd * (resume + extra) == jd * resume;
    assert jd - (resume + extra) == jd - resume;
  }

  /** With an empty job description the résumé does matter: an empty one
      scores 100 and a non-empty one 0. */
  lemma EmptyJobDescription(resume: set<string>)
    ensures CompareKeywords(KeywordSet(resume), KeywordSet({}))
         == Comparison(if resume == {} then 100 else 0, [], [])
  {
    SortedListCanonical([], {});
  }

  /** A list is coerced to a set before any size is read: lists with the
      same entries, however often repeated, give the same result as each
      other and as their set. */
  lemma DuplicatesIrrelevant(entries1: seq<string>, entries2: seq<string>, other: Keywords)
    requires forall w :: w in entries1 <==> w in entries2
    ensures CompareKeywords(KeywordList(entries1), other) == CompareKeywords(KeywordList(entries2), other)
    ensures CompareKeywords(other, KeywordList(entries1)) == CompareKeywords(other, KeywordList(entries2))
    ensures CompareKeywords(KeywordList(entries1), other)
         == CompareKeywords(KeywordSet(set w | w in entries2), other)
  {
    assert AsSet(KeywordList(entries1)) == AsSet(KeywordList(entries2));
  }

  /** Python's `sorted(list(s))` in place of `SortedList(s)` gives the same
      record whatever order the sets are listed in. */
  lemma IterationOrderIrrelevantForResult(resumeKeywords: Keywords, jdKeywords: Keywords,
                                          matchedListing: seq<string>, missingListing: seq<string>)
    requires multiset(matchedListing) == multiset(AsSet(jdKeywords) * AsSet(resumeKeywords))
    requires multiset(missingListing) == multiset(AsSet(jdKeywords) - AsSet(resumeKeywords))
    ensures CompareKeywords(resumeKeywords, jdKeywords)
         == Comparison(MatchScore(AsSet(resumeKeywords), AsSet(jdKeywords)), Sort(matchedListing), Sort(missingListing))
  {
    IterationOrderIrrelevant(matchedListing, AsSet(jdKeywords) * AsSet(resumeKeywords));
    IterationOrderIrrelevant(missingListing, AsSet(jdKeywords) - AsSet(resumeKeywords));
  }

  /** Two of three job-description keywords matched: 2/3 rounds to 67. */
  lemma ExamplePartialMatch()
    ensures CompareKeywords(KeywordSet({"python", "aws", "docker"}), KeywordSet({"python", "aws", "kubernetes"}))
         == Comparison(67, ["aws", "python"], ["kubernetes"])
  {
    var resume, jd := {"python", "aws", "docker"}, {"python", "aws", "kubernetes"};
    assert jd * resume == {"aws", "python"};
    assert jd - resume == {"kubernetes"};
    assert |jd| == 3;
    assert |jd * resume| == 2;
    SortedListCanonical(["aws", "python"], jd * resume);
    SortedListCanonical(["kubernetes"], jd - resume);
  }

  /** No résumé keywords against two job-description keywords: score 0 and
      both keywords missing, in order. */
  lemma ExampleEmptyResume()
    ensures CompareKeywords(KeywordSet({}), KeywordSet({"python", "aws"}))
         == Comparison(0, [], ["aws", "python"])
  {
    var jd: set<string> := {"python", "aws"};
    assert jd * {} == {};
    assert jd - {} == jd;
    SortedListCanonical([], {});
    SortedListCanonical(["aws", "python"], jd);
  }

  /** The comparison does not change case: a list of "java", "java" and
      "JAVA" is the two-keyword set {"java", "JAVA"}, half of which the
      résumé has. */
  lemma ExampleDuplicatesAndCase()
    ensures CompareKeywords(KeywordSet({"java"}), KeywordList(["java", "java", "JAVA"]))
         == Comparison(50, ["java"], ["JAVA"])
  {
    var jd: set<string> := {"java", "JAVA"};
    JavaListAsSet();
    assert "java"[0] != "JAVA"[0];
    assert jd * {"java"} == {"java"};
    assert jd - {"java"} == {"JAVA"};
    assert |jd| == 2;
    SortedListCanonical(["java"], {"java"});
    SortedListCanonical(["JAVA"], {"JAVA"});
  }

  lemma JavaListAsSet()
    ensures AsSet(KeywordList(["java", "java", "JAVA"])) == {"java", "JAVA"}
  {
    var entries := ["java", "java", "JAVA"];
    forall w ensures w in AsSet(KeywordList(entries)) <==> w == "java" || w == "JAVA" {
      assert w in entries <==> w == "java" || w == "JAVA";
    }
  }
}
