/** What the filters and the test for synonyms ask of facts, in words: on trees without linked
    lists the comparisons they make count occurrences of words. */
module FilterWords {
  import opened Text
  import opened XmlCodec
  import opened Words
  import opened Scoring
  import opened Filters

  /** No list of linked or alternative children. */
  predicate PlainLists(o: Xml) {
    o.ListNode? ==> o.name !in {"link_&", "link_|", "synonyms"} && AllPlain(o.content)
  }

  predicate AllPlain(kids: seq<Xml>) {
    kids == [] || (PlainLists(kids[0]) && AllPlain(kids[1..]))
  }

  /** How many of the words are equal to one of the others, ignoring case. */
  ghost function Occurrences(words: seq<string>, others: seq<string>): nat {
    if words == [] then 0
    else (if exists v :: v in others && SameWord(words[0], v) then 1 else 0) + Occurrences(words[1..], others)
  }

  lemma {:induction false} OccurrencesConcat(a: seq<string>, b: seq<string>, others: seq<string>)
    ensures Occurrences(a + b, others) == Occurrences(a, others) + Occurrences(b, others)
    decreases |a|
  {
    hide SameWord;
    if a == [] {
      assert a + b == b;
    } else {
      OccurrencesConcat(a[1..], b, others);
      assert (a + b)[1..] == a[1..] + b && (a + b)[0] == a[0];
    }
  }

  lemma {:induction false} OneWordCounts(w: string, words: seq<string>, n: nat)
    requires n >= |words|
    ensures WordScore(Count, w, words, n) == if exists v :: v in words && SameWord(w, v) then 1.0 else 0.0
    decreases |words|
  {
    hide SameWord;
    if words != [] {
      OneWordCounts(w, words[1..], n);
      assert forall v :: v in words <==> v == words[0] || v in words[1..];
    }
  }

  lemma {:induction false} WordsCount(words: seq<string>, others: seq<string>)
    ensures WordsScore(Count, words, others) == Occurrences(words, others) as real
    decreases |words|
  {
    hide WordScore, SameWord;
    if words != [] {
      OneWordCounts(words[0], others, |others|);
      WordsCount(words[1..], others);
    }
  }

  /** `&&` with a text counts the words of the tree that the text has. */
  lemma {:induction false} MatchCounts(o: Xml, t: string)
    requires PlainLists(o)
    ensures Compare(Count, o, TextNode(t)) == Val(Occurrences(LeafWords(o), TextWords(t)) as real)
    decreases o, 1
  {
    hide Occurrences, TextWords, WordsScore;
    CompareCases(Count, o, TextNode(t));
    match o
    case TextNode(text) => WordsCount(TextWords(text), TextWords(t));
    case ListNode(_, content) => MatchesCount(content, t);
  }

  lemma {:induction false} MatchesCount(kids: seq<Xml>, t: string)
    requires AllPlain(kids)
    ensures GatherLeft(Count, kids, TextNode(t)).0 == Occurrences(AllLeafWords(kids), TextWords(t)) as real
    decreases kids, 0
  {
    hide TextWords, Compare, PlainLists, LeafWords, SameWord;
    if kids != [] {
      MatchCounts(kids[0], t);
      MatchesCount(kids[1..], t);
      OccurrencesConcat(LeafWords(kids[0]), AllLeafWords(kids[1..]), TextWords(t));
    }
  }

  /** The words that `count_words` counts: those of question words, extras, truths and clauses
      below the top are left out. */
  function Counted(o: Xml): seq<string> {
    match o
    case TextNode(text) => TextWords(text)
    case ListNode(_, content) => AllCounted(content)
  }

  function AllCounted(kids: seq<Xml>): seq<string> {
    if kids == [] then [] else (if Aside(kids[0]) then [] else Counted(kids[0])) + AllCounted(kids[1..])
  }

  lemma {:induction false} CountIsNumber(o: Xml)
    requires PlainLists(o)
    ensures CountWords(o) == Val(|Counted(o)| as real)
    decreases o, 1
  {
    if o.ListNode? { CountsAreNumbers(o.content); }
  }

  lemma {:induction false} CountsAreNumbers(kids: seq<Xml>)
    requires AllPlain(kids)
    ensures CountKids(kids) == Val(|AllCounted(kids)| as real)
    decreases kids, 0
  {
    hide CountWords, Counted, PlainLists;
    if kids != [] {
      CountIsNumber(kids[0]);
      CountsAreNumbers(kids[1..]);
    }
  }

  // ---- parts --------------------------------------------------------------------------------

  /** The words under one tag of a fact, and those of them that are counted. */
  function Said(o: Xml, tag: string): seq<string> { SaidBy(Embedded(o), tag) }

  function SaidBy(kids: seq<Xml>, tag: string): seq<string> {
    if kids == [] then []
    else (if NameOf(kids[0]) == tag then LeafWords(kids[0]) else []) + SaidBy(kids[1..], tag)
  }

  function SaidCounted(o: Xml, tag: string): seq<string> { CountedBy(Embedded(o), tag) }

  function CountedBy(kids: seq<Xml>, tag: string): seq<string> {
    if kids == [] then []
    else (if NameOf(kids[0]) == tag then Counted(kids[0]) else []) + CountedBy(kids[1..], tag)
  }

  lemma {:induction false} ListsConcat(a: seq<Xml>, b: seq<Xml>)
    ensures AllLeafWords(a + b) == AllLeafWords(a) + AllLeafWords(b)
    ensures AllCounted(a + b) == AllCounted(a) + AllCounted(b)
    ensures AllPlain(a + b) <==> AllPlain(a) && AllPlain(b)
    decreases |a|
  {
    hide LeafWords, Counted, PlainLists, Aside;
    if a == [] {
      assert a + b == b;
    } else {
      ListsConcat(a[1..], b);
      assert (a + b)[1..] == a[1..] + b && (a + b)[0] == a[0];
    }
  }

  lemma {:induction false} MergedWords(kids: seq<Xml>, tag: string)
    requires AllPlain(kids) && tag != ""
    ensures AllLeafWords(Merged(Named(kids, tag))) == SaidBy(kids, tag)
    ensures AllCounted(Merged(Named(kids, tag))) == CountedBy(kids, tag)
    ensures AllPlain(Merged(Named(kids, tag)))
    decreases |kids|
  {
    hide AllLeafWords, AllCounted, AllPlain;
    NothingSaid();
    if kids != [] {
      PlainHead(kids);
      MergedWords(kids[1..], tag);
      var rest := Named(kids[1..], tag);
      if NameOf(kids[0]) == tag {
        assert ([kids[0]] + rest)[1..] == rest;
        ListsConcat(kids[0].content, Merged(rest));
      }
    }
  }

  lemma PlainHead(kids: seq<Xml>)
    requires kids != [] && AllPlain(kids)
    ensures PlainLists(kids[0]) && AllPlain(kids[1..])
  {
  }

  lemma NothingSaid()
    ensures AllLeafWords([]) == [] && AllCounted([]) == [] && AllPlain([])
  {
  }

  lemma {:induction false} PlainOnes(kids: seq<Xml>)
    ensures AllPlain(kids) <==> forall k :: k in kids ==> PlainLists(k)
    decreases |kids|
  {
    if kids != [] {
      PlainOnes(kids[1..]);
      assert AllPlain(kids) <==> PlainLists(kids[0]) && AllPlain(kids[1..]);
      hide PlainLists, AllPlain;
      assert forall k :: k in kids <==> k == kids[0] || k in kids[1..];
      assert kids[0] in kids;
    }
  }

  /** A part is all that is said under its tag. */
  lemma PartIsSaid(o: Xml, tag: string)
    requires PlainLists(o) && tag !in {"", "link_&", "link_|", "synonyms"}
    ensures PlainLists(Part(o, tag))
    ensures LeafWords(Part(o, tag)) == Said(o, tag) && Counted(Part(o, tag)) == SaidCounted(o, tag)
  {
    var kids := Embedded(o);
    var parts := Named(kids, tag);
    NothingSaid();
    MergedWords(kids, tag);
    PlainOnes(kids);
    NamedAre(kids, tag);
    hide AllLeafWords, AllCounted, AllPlain, Named;
    if |parts| == 1 {
      assert parts[0] in parts;
      assert parts[1..] == [] && Merged([]) == [];
      assert Merged(parts) == parts[0].content + [] == parts[0].content;
    }
  }

  /** How often the words of a text occur under a tag. */
  ghost function TimesSaid(o: Xml, tag: string, texts: seq<string>): nat {
    Occurrences(Said(o, tag), texts)
  }

  lemma MatchingPart(o: Xml, tag: string, text: string)
    requires PlainLists(o) && tag !in {"", "link_&", "link_|", "synonyms"}
    requires text in {"=", "(a)", "is-a", "nicht", "0", "who", "what"}
    ensures Matching(Part(o, tag), text) == Val(TimesSaid(o, tag, [text]) as real)
  {
    hide Compare, Part, PlainLists, Said, TextWords, Trim;
    PartIsSaid(o, tag);
    MatchCounts(Part(o, tag), text);
    FilterWord(text);
  }

  lemma FilterWord(text: string)
    requires text in {"=", "(a)", "is-a", "nicht", "0", "who", "what", "name"}
    ensures TextWords(text) == [text] && Trim(text, TRIMMED) == text
  {
    assert text[0] !in TRIMMED && text[|text| - 1] !in TRIMMED && text != "" && text != "1";
    TrimStays(text, TRIMMED);
    WordOfText(text);
  }

  lemma MatchingName(o: Xml, tag: string)
    requires PlainLists(o) && tag !in {"", "link_&", "link_|", "synonyms"}
    ensures Matching(Part(o, tag), "(a) name") == Val(TimesSaid(o, tag, ["(a)", "name"]) as real)
  {
    hide Compare, Part, PlainLists, Said, TextWords;
    PartIsSaid(o, tag);
    MatchCounts(Part(o, tag), "(a) name");
    FilterWord("(a)");
    FilterWord("name");
    assert [' '][0] == ' ';
    WordsParted("(a)", ' ', "name");
    assert "(a)" + [' '] + "name" == "(a) name" && ["(a)"] + ["name"] == ["(a)", "name"];
    TrimStays("(a) name", TRIMMED);
    assert Trim("(a) name", TRIMMED) == "(a) name";
  }

  lemma CountedPart(o: Xml, tag: string)
    requires PlainLists(o) && tag !in {"", "link_&", "link_|", "synonyms"}
    ensures CountWords(Part(o, tag)) == Val(|SaidCounted(o, tag)| as real)
  {
    hide Part, PlainLists, CountWords, SaidCounted;
    PartIsSaid(o, tag);
    CountIsNumber(Part(o, tag));
  }

  // ---- synonyms -----------------------------------------------------------------------------

  /** A synonym says "=" once as its verb, has a subject and an object, and says "(a)" in neither
      of them unless this is its only word. */
  lemma SynonymIff(f: Xml)
    requires PlainLists(f)
    ensures IsSynonym(f) <==>
              && TimesSaid(f, "verb", ["="]) == 1
              && SaidCounted(f, "subject") != [] && SaidCounted(f, "object") != []
              && (TimesSaid(f, "subject", ["(a)"]) == 0 || |SaidCounted(f, "subject")| == 1)
              && (TimesSaid(f, "object", ["(a)"]) == 0 || |SaidCounted(f, "object")| == 1)
  {
    hide Matching, Part, PlainLists, CountWords, SaidCounted, TimesSaid;
    MatchingPart(f, "verb", "=");
    MatchingPart(f, "subject", "(a)");
    MatchingPart(f, "object", "(a)");
    CountedPart(f, "subject");
    CountedPart(f, "object");
  }

  // ---- the filters --------------------------------------------------------------------------

  /** "X is a name" is hardly an answer; a fact with "nicht", or with the truth 0, much less of one. */
  ghost function PlainFactor(b: Xml): real {
    (if TimesSaid(b, "verb", ["is-a"]) == 1 && TimesSaid(b, "object", ["(a)", "name"]) == 2 then 0.1 else 1.0) *
    ((if TimesSaid(b, "adverbs", ["nicht"]) >= 1 then 0.25 else 1.0) *
     (if TimesSaid(b, "truth", ["0"]) >= 1 then 0.1 else 1.0))
  }

  /** Asked "who", facts with clauses, with adverbs and without a definite noun as object lose. */
  ghost function WhoPlain(tags: Tagging, a: Xml, b: Xml): real {
    if TimesSaid(a, "questionword", ["who"]) != 1 then 1.0
    else
      (if SaidCounted(b, "clause") != [] then 0.75 else 1.0) * (if SaidCounted(b, "adverbs") != [] then 0.3 else 1.0) *
      (if SaidCounted(b, "object") == [] then 0.3
       else if TimesSaid(b, "object", ["(a)"]) > 0 then 0.5
       else if exists w :: w in TreeWords(Part(b, "object")) && w in tags.right && tags.right[w] == "n" then 1.0
       else 0.3)
  }

  /** Asked "what", facts with an indefinite object win. */
  ghost function WhatPlain(a: Xml, b: Xml): real {
    if TimesSaid(a, "questionword", ["what"]) != 1 then 1.0
    else
      (if SaidCounted(b, "clause") != [] then 0.9 else 1.0) *
      (if SaidCounted(b, "object") == [] then 0.3 else if TimesSaid(b, "object", ["(a)"]) > 0 then 2.0 else 0.7)
  }

  lemma {:induction false} NoneTagged(words: seq<string>, tags: map<string, string>, tag: string)
    ensures CountTagged(words, tags, tag) == 0 <==> !exists w :: w in words && w in tags && tags[w] == tag
    decreases |words|
  {
    if words != [] {
      NoneTagged(words[1..], tags, tag);
      assert forall w :: w in words <==> w == words[0] || w in words[1..];
    }
  }

  lemma FactorsInWords(tags: Tagging, a: Xml, b: Xml)
    requires PlainLists(a) && PlainLists(b)
    ensures NoNamesFactor(b) * NotFactor(b) == PlainFactor(b)
    ensures WhoFactor(tags, a, b) == WhoPlain(tags, a, b) && WhatFactor(a, b) == WhatPlain(a, b)
  {
    hide Matching, Part, PlainLists, CountWords, SaidCounted, TimesSaid, CountTagged, TreeWords;
    MatchingPart(b, "verb", "is-a");
    MatchingName(b, "object");
    MatchingPart(b, "adverbs", "nicht");
    MatchingPart(b, "truth", "0");
    MatchingPart(a, "questionword", "who");
    MatchingPart(a, "questionword", "what");
    MatchingPart(b, "object", "(a)");
    CountedPart(b, "clause");
    CountedPart(b, "adverbs");
    CountedPart(b, "object");
    NoneTagged(TreeWords(Part(b, "object")), tags.right, "n");
  }

  /** What the filters leave of a score, said in words. An extra that is asked for adds the score
      of its pairs, or takes a quarter off where it matches nothing. */
  lemma FiltersInWords(tags: Tagging, a: Xml, b: Xml, m: real)
    requires PlainLists(a) && PlainLists(b)
    ensures var r := m * (PlainFactor(b) * WhoPlain(tags, a, b) * WhatPlain(a, b));
            var extra := PairsSum(tags, Embedded(a), {"extra"}, Embedded(b), PARTS);
            Filtered(tags, a, b, Val(m)) ==
              Val(if SaidCounted(a, "extra") == [] then r
                  else if MatchesPart(a, "extra", b) then r + extra
                  else r * 0.75)
  {
    hide NoNamesFactor, NotFactor, WhoFactor, WhatFactor, PlainFactor, WhoPlain, WhatPlain, PairsSum, MatchesPart,
         RowScore, CountWords, Part, PlainLists, SaidCounted;
    FactorsInWords(tags, a, b);
    var x, y, z, w := NoNamesFactor(b), NotFactor(b), WhoFactor(tags, a, b), WhatFactor(a, b);
    TimesTwice(Val(m), x, y);
    TimesTwice(Val(m), x * y, z);
    TimesTwice(Val(m), x * y * z, w);
    CountedPart(a, "extra");
    RowIsPairs(tags, a, "extra", b);
    RowSign(tags, a, "extra", b);
  }
}
