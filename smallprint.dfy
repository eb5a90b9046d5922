// The "smallprint" remark derived from the marker characters of a module title.

module TitleMarkers {
  import opened Page

  const Unrestricted: string := "Unrestricted Elective"
  const SelfPaced: string := "Self-Paced Course"
  const GeneralEducation: string := "General Education Prescribed Elective"
  const Lead: string := "Course is available as "

  /** The phrases whose markers occur in the title, in the order the spider adds
      them to its set: `*`, then `^`, then `#`. */
  function MarkedPhrases(title: string): (r: seq<string>)
    ensures Unrestricted in r <==> '*' in title
    ensures SelfPaced in r <==> '^' in title
    ensures GeneralEducation in r <==> '#' in title
    ensures |r| == 0 <==> ('*' !in title && '^' !in title && '#' !in title)
  {
    (if '*' in title then [Unrestricted] else [])
    + (if '^' in title then [SelfPaced] else [])
    + (if '#' in title then [GeneralEducation] else [])
  }

  /** Exactly one phrase per marker present: no other phrase, none twice. */
  lemma MarkedPhrasesOnePerMarker(title: string)
    ensures forall p :: p in MarkedPhrases(title) ==> p == Unrestricted || p == SelfPaced || p == GeneralEducation
    ensures forall i, j :: 0 <= i < j < |MarkedPhrases(title)| ==> MarkedPhrases(title)[i] != MarkedPhrases(title)[j]
  {
  }

  /** `listing` is one order in which the phrase set of `title` may come out of
      Python's `list(set(...))`: the same phrases, each once. */
  predicate IsListing(listing: seq<string>, title: string)
  {
    multiset(listing) == multiset(MarkedPhrases(title))
  }

  /** The spider's sentence for a listing of phrases: "Course is available as "
      followed by the phrases, the last one after " and ", the others separated
      by ", "; no sentence at all when no marker is present. The set's
      iteration order is the parameter `listing`. */
  function Smallprint(title: string, listing: seq<string>): (r: Option<string>)
    requires IsListing(listing, title)
    ensures r.None? <==> ('*' !in title && '^' !in title && '#' !in title)
    ensures r.Some? ==> |listing| == |MarkedPhrases(title)| >= 1
  {
    ListingLength(listing, title);
    if |listing| >= 1 then Some(Lead + Listed(listing)) else None
  }

  /** The spider's formatting of one or more phrases: a single phrase alone,
      otherwise all but the last joined by ", " and the last after " and ". */
  function Listed(items: seq<string>): (r: string)
    requires |items| >= 1
    ensures |items| == 1 ==> r == items[0]
    ensures |r| >= |items[|items| - 1]|
  {
    if |items| > 1 then JoinWith(", ", items[..|items| - 1]) + " and " + items[|items| - 1]
    else items[0]
  }

  /** The formatted list always ends with the last phrase. */
  lemma ListedEndsWithLast(items: seq<string>)
    requires |items| >= 1
    ensures var r := Listed(items); r[|r| - |items[|items| - 1]|..] == items[|items| - 1]
  {
    if |items| > 1 {
      var head := JoinWith(", ", items[..|items| - 1]) + " and ";
      assert Listed(items) == head + items[|items| - 1];
    }
  }

  /** The sentence with the phrases in the canonical order `*`, `^`, `#`
      (this order is a modelling choice: the source leaves it to the set). */
  function CanonicalSmallprint(title: string): (r: Option<string>)
    ensures r.None? <==> ('*' !in title && '^' !in title && '#' !in title)
  {
    Smallprint(title, MarkedPhrases(title))
  }

  /** An English enumeration written independently: "a", "a and b",
      "a, b and c", ... */
  function Enumeration(items: seq<string>): string
    requires |items| >= 1
  {
    if |items| == 1 then items[0]
    else if |items| == 2 then items[0] + " and " + items[1]
    else items[0] + ", " + Enumeration(items[1..])
  }

  lemma {:induction false} ListedIsEnumeration(items: seq<string>)
    requires |items| >= 1
    ensures Listed(items) == Enumeration(items)
  {
    var n := |items|;
    if n == 2 {
      assert items[..1] == [items[0]];
    } else if n > 2 {
      var rest := items[1..];
      ListedIsEnumeration(rest);
      assert items[..n - 1] == [items[0]] + rest[..|rest| - 1];
      assert items[..n - 1][1..] == rest[..|rest| - 1];
      calc {
        Listed(items);
        JoinWith(", ", items[..n - 1]) + " and " + items[n - 1];
        items[0] + ", " + JoinWith(", ", rest[..|rest| - 1]) + " and " + rest[|rest| - 1];
        items[0] + ", " + (JoinWith(", ", rest[..|rest| - 1]) + " and " + rest[|rest| - 1]);
        items[0] + ", " + Listed(rest);
        items[0] + ", " + Enumeration(rest);
      }
    }
  }

  /** Whatever order the set yields, the remark is the lead followed by an
      enumeration of the listed phrases (which ListingSamePhrases shows are
      exactly the phrases whose markers are in the title). */
  lemma SmallprintIsEnumeration(title: string, listing: seq<string>)
    requires IsListing(listing, title)
    requires '*' in title || '^' in title || '#' in title
    ensures |listing| >= 1
    ensures Smallprint(title, listing) == Some(Lead + Enumeration(listing))
  {
    ListingLength(listing, title);
    ListedIsEnumeration(listing);
  }

  /** Any order the set may yield holds the phrases of the markers present, and no other. */
  lemma ListingSamePhrases(listing: seq<string>, title: string)
    requires IsListing(listing, title)
    ensures forall p :: p in listing <==> p in MarkedPhrases(title)
  {
    forall p ensures p in listing <==> p in MarkedPhrases(title) {
      ListingHas(listing, title, p);
    }
  }

  lemma ListingLength(listing: seq<string>, title: string)
    requires IsListing(listing, title)
    ensures |listing| == |MarkedPhrases(title)|
  {
    assert |listing| == |multiset(listing)|;
  }

  lemma ListingHas(listing: seq<string>, title: string, p: string)
    requires IsListing(listing, title)
    ensures p in listing <==> p in MarkedPhrases(title)
  {
    assert p in listing <==> p in multiset(listing);
    assert p in MarkedPhrases(title) <==> p in multiset(MarkedPhrases(title));
  }

  /** A title with `*` and `#` but no `^` yields the two phrases joined by " and ". */
  lemma StarAndHash(title: string)
    requires '*' in title && '#' in title && '^' !in title
    ensures CanonicalSmallprint(title)
      == Some(Lead + Unrestricted + " and " + GeneralEducation)
  {
    var listing := MarkedPhrases(title);
    assert listing == [Unrestricted, GeneralEducation];
    assert listing[..1] == [Unrestricted];
    assert JoinWith(", ", listing[..1]) == Unrestricted;
    assert Listed(listing) == Unrestricted + " and " + GeneralEducation;
    assert CanonicalSmallprint(title) == Some(Lead + Listed(listing));
    assert Lead + (Unrestricted + " and " + GeneralEducation) == Lead + Unrestricted + " and " + GeneralEducation;
  }

  /** With the canonical order the remark is a faithful code for the markers:
      two titles get the same remark exactly when they carry the same markers. */
  lemma {:induction false} CanonicalSmallprintDeterminesMarkers(t1: string, t2: string)
    ensures CanonicalSmallprint(t1) == CanonicalSmallprint(t2)
      <==> (('*' in t1 <==> '*' in t2) && ('^' in t1 <==> '^' in t2) && ('#' in t1 <==> '#' in t2))
  {
    if CanonicalSmallprint(t1) == CanonicalSmallprint(t2) {
      var a, b := CanonicalSmallprint(t1), CanonicalSmallprint(t2);
      assert a.None? <==> b.None?;
      if a.Some? {
        CanonicalLength(t1);
        CanonicalLength(t2);
      }
    } else {
      assert MarkedPhrases(t1) != MarkedPhrases(t2);
    }
  }

  /** The canonical sentence's length tells the marker set apart. */
  lemma CanonicalLength(title: string)
    requires CanonicalSmallprint(title).Some?
    ensures |CanonicalSmallprint(title).value| == SentenceLength(title)
  {
    var listing := MarkedPhrases(title);
    var star, caret, hash := '*' in title, '^' in title, '#' in title;
    assert |Unrestricted| == 21 && |SelfPaced| == 17 && |GeneralEducation| == 37;
    assert CanonicalSmallprint(title).value == Lead + Listed(listing);
    if star && caret && hash {
      assert listing == [Unrestricted, SelfPaced, GeneralEducation];
      ListedLengthThree(listing);
    } else if star && caret {
      assert listing == [Unrestricted, SelfPaced];
      ListedLengthTwo(listing);
    } else if star && hash {
      assert listing == [Unrestricted, GeneralEducation];
      ListedLengthTwo(listing);
    } else if caret && hash {
      assert listing == [SelfPaced, GeneralEducation];
      ListedLengthTwo(listing);
    } else if star {
      assert listing == [Unrestricted];
    } else if caret {
      assert listing == [SelfPaced];
    } else {
      assert listing == [GeneralEducation];
    }
  }

  lemma ListedLengthTwo(items: seq<string>)
    requires |items| == 2
    ensures |Listed(items)| == |items[0]| + 5 + |items[1]|
  {
    assert items[..1] == [items[0]];
  }

  lemma ListedLengthThree(items: seq<string>)
    requires |items| == 3
    ensures |Listed(items)| == |items[0]| + 2 + |items[1]| + 5 + |items[2]|
  {
    assert items[..2] == [items[0], items[1]];
    assert items[..2][1..] == [items[1]];
    assert JoinWith(", ", items[..2]) == items[0] + ", " + items[1];
  }

  /** The length of the canonical sentence: distinct for each non-empty marker set. */
  function SentenceLength(title: string): nat
  {
    var star, caret, hash := '*' in title, '^' in title, '#' in title;
    |Lead| +
    (if star && caret && hash then 21 + 2 + 17 + 5 + 37
     else if star && caret then 21 + 5 + 17
     else if star && hash then 21 + 5 + 37
     else if caret && hash then 17 + 5 + 37
     else if star then 21
     else if caret then 17
     else if hash then 37
     else 0)
  }
}
