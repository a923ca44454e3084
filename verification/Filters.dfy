/** The score of two facts and its filters, which update one number step by step. */
module Filters {
  import opened Text
  import opened XmlCodec
  import opened Words
  import opened Scoring

  /** `count_words`: a double, averaged over alternatives, so 0/0 for an empty one. */
  function CountWords(o: Xml): Score {
    match o
    case TextNode(text) => Val(|TextWords(text)| as real)
    case ListNode(name, content) =>
      var c := CountKids(content);
      if name == "link_|" || name == "synonyms" then
        (if content == [] then Undefined
         else if c.Val? then Val(c.value / |content| as real) else Undefined)
      else c
  }

  function CountKids(kids: seq<Xml>): Score {
    if kids == [] then Val(0.0)
    else if NameOf(kids[0]) in {"questionword", "extra", "truth", "clause"} then CountKids(kids[1..])
    else Plus(CountWords(kids[0]), CountKids(kids[1..]))
  }

  /** How many words carry the tag. */
  function CountTagged(words: seq<string>, tags: map<string, string>, tag: string): nat {
    if words == [] then 0
    else (if words[0] in tags && tags[words[0]] == tag then 1 else 0) + CountTagged(words[1..], tags, tag)
  }

  function Matching(o: Xml, text: string): Score {
    Compare(Count, o, TextNode(Trim(text, TRIMMED)))
  }

  predicate Equals(s: Score, r: real) { s == Val(r) }

  predicate AtLeast(s: Score, r: real) { s.Val? && s.value >= r }

  /** `is_synonym`: a fact "subject = object" between words. */
  predicate IsSynonym(o: Xml) {
    var subject, object_ := Part(o, "subject"), Part(o, "object");
    var countSubject, countObject := CountWords(subject), CountWords(object_);
    Equals(Matching(Part(o, "verb"), "="), 1.0) &&
    Positive(countSubject) && Positive(countObject) &&
    (Equals(Matching(subject, "(a)"), 0.0) || Equals(countSubject, 1.0)) &&
    (Equals(Matching(object_, "(a)"), 0.0) || Equals(countObject, 1.0))
  }

  // ---- vectors of parts ------------------------------------------------------------

  /** A tree against a vector, and a vector against a vector. */
  function AgainstAll(tags: Tagging, o1: Xml, v2: seq<Xml>): Score {
    if v2 == [] then Val(0.0) else Plus(Compare(Weigh(tags), o1, v2[0]), AgainstAll(tags, o1, v2[1..]))
  }

  function AllAgainstAll(tags: Tagging, v1: seq<Xml>, v2: seq<Xml>): Score {
    if v1 == [] then Val(0.0) else Plus(AgainstAll(tags, v1[0], v2), AllAgainstAll(tags, v1[1..], v2))
  }

  function PartScore(tags: Tagging, o1: Xml, tag1: string, o2: Xml, tag2: string): Score {
    AllAgainstAll(tags, Parts(o1, tag1), Parts(o2, tag2))
  }

  /** One part of o1 against subject, object and adverbs of o2. */
  function RowScore(tags: Tagging, o1: Xml, tag1: string, o2: Xml): Score {
    Plus(Plus(PartScore(tags, o1, tag1, o2, "subject"), PartScore(tags, o1, tag1, o2, "object")),
         PartScore(tags, o1, tag1, o2, "adverbs"))
  }

  function RawScore(tags: Tagging, o1: Xml, o2: Xml): Score {
    Plus(Plus(Plus(Val(0.0), RowScore(tags, o1, "subject", o2)), RowScore(tags, o1, "object", o2)),
         RowScore(tags, o1, "adverbs", o2))
  }

  // ---- the filters -------------------------------------------------------------------

  function NoNamesFactor(b: Xml): real {
    if Equals(Matching(Part(b, "verb"), "is-a"), 1.0) && Equals(Matching(Part(b, "object"), "(a) name"), 2.0)
    then 0.1 else 1.0
  }

  function NotFactor(b: Xml): real {
    (if AtLeast(Matching(Part(b, "adverbs"), "nicht"), 1.0) then 0.25 else 1.0) *
    (if AtLeast(Matching(Part(b, "truth"), "0"), 1.0) then 0.1 else 1.0)
  }

  function WhoFactor(tags: Tagging, a: Xml, b: Xml): real {
    if !Equals(Matching(Part(a, "questionword"), "who"), 1.0) then 1.0
    else
      (if Positive(CountWords(Part(b, "clause"))) then 0.75 else 1.0) *
      (if Positive(CountWords(Part(b, "adverbs"))) then 0.3 else 1.0) *
      (if Positive(CountWords(Part(b, "object"))) then
         (if Positive(Matching(Part(b, "object"), "(a)")) then 0.5
          else if CountTagged(TreeWords(Part(b, "object")), tags.right, "n") == 0 then 0.3 else 1.0)
       else 0.3)
  }

  function WhatFactor(a: Xml, b: Xml): real {
    if !Equals(Matching(Part(a, "questionword"), "what"), 1.0) then 1.0
    else
      (if Positive(CountWords(Part(b, "clause"))) then 0.9 else 1.0) *
      (if Positive(CountWords(Part(b, "object"))) then
         (if Positive(Matching(Part(b, "object"), "(a)")) then 2.0 else 0.7)
       else 0.3)
  }

  /** The last filter adds the score of the "extra" parts, or takes a quarter off. */
  function ExtraStep(tags: Tagging, a: Xml, b: Xml, m: Score): Score {
    if !Positive(CountWords(Part(a, "extra"))) then m
    else
      var extra := RowScore(tags, a, "extra", b);
      if Positive(extra) then Plus(m, extra) else Times(m, 0.75)
  }

  function Filtered(tags: Tagging, a: Xml, b: Xml, m: Score): Score {
    ExtraStep(tags, a, b,
      Times(Times(Times(Times(m, NoNamesFactor(b)), NotFactor(b)), WhoFactor(tags, a, b)), WhatFactor(a, b)))
  }

  /** The score `o1 % o2`. */
  function FactScore(tags: Tagging, o1: Xml, o2: Xml): Score {
    if PartScore(tags, o1, "verb", o2, "verb") == Val(0.0) then Val(0.0)
    else Filtered(tags, o1, o2, RawScore(tags, o1, o2))
  }

  lemma TimesTwice(m: Score, j: real, k: real)
    ensures Times(Times(m, j), k) == Times(m, j * k)
    ensures Times(m, 1.0) == m
  {
    if m.Val? { assert m.value * j * k == m.value * (j * k); }
  }

  /** The list of filter rules: each rule updates `m` for the facts `a` and `b`. */
  class FilterList {
    const tags: Tagging
    var a: Xml
    var b: Xml
    var m: Score

    constructor (tags: Tagging)
      ensures this.tags == tags
    {
      this.tags := tags;
      a, b, m := TextNode(""), TextNode(""), Val(0.0);
    }

    method NoNames()
      modifies this`m
      ensures m == Times(old(m), NoNamesFactor(b))
    {
      TimesTwice(m, 1.0, 1.0);
      if Equals(Matching(Part(b, "verb"), "is-a"), 1.0) {
        if Equals(Matching(Part(b, "object"), "(a) name"), 2.0) {
          m := Times(m, 0.1);
        }
      }
    }

    method Not()
      modifies this`m
      ensures m == Times(old(m), NotFactor(b))
    {
      hide Matching, Part;
      ghost var m0 := m;
      if AtLeast(Matching(Part(b, "adverbs"), "nicht"), 1.0) {
        m := Times(m, 0.25);
      }
      ghost var j := if AtLeast(Matching(Part(b, "adverbs"), "nicht"), 1.0) then 0.25 else 1.0;
      TimesTwice(m0, 1.0, 1.0);
      assert m == Times(m0, j);
      if AtLeast(Matching(Part(b, "truth"), "0"), 1.0) {
        TimesTwice(m0, j, 0.1);
        m := Times(m, 0.1);
      } else {
        TimesTwice(m0, j, 1.0);
        TimesTwice(m, 1.0, 1.0);
      }
    }

    method QuestionWho()
      modifies this`m
      ensures m == Times(old(m), WhoFactor(tags, a, b))
    {
      hide Matching, Part, CountWords, CountTagged, TreeWords;
      ghost var m0 := m;
      TimesTwice(m0, 1.0, 1.0);
      if Equals(Matching(Part(a, "questionword"), "who"), 1.0) {
        ghost var j, k, l := 1.0, 1.0, 1.0;
        if Positive(CountWords(Part(b, "clause"))) {
          m := Times(m, 0.75);
          j := 0.75;
        }
        if Positive(CountWords(Part(b, "adverbs"))) {
          m := Times(m, 0.3);
          k := 0.3;
        }
        if Positive(CountWords(Part(b, "object"))) {
          if Positive(Matching(Part(b, "object"), "(a)")) {
            m := Times(m, 0.5);
            l := 0.5;
          } else if CountTagged(TreeWords(Part(b, "object")), tags.right, "n") == 0 {
            m := Times(m, 0.3);
            l := 0.3;
          }
        } else {
          m := Times(m, 0.3);
          l := 0.3;
        }
        assert WhoFactor(tags, a, b) == j * k * l;
      }
    }

    method QuestionWhat()
      modifies this`m
      ensures m == Times(old(m), WhatFactor(a, b))
    {
      hide Matching, Part, CountWords;
      ghost var m0 := m;
      TimesTwice(m0, 1.0, 1.0);
      if Equals(Matching(Part(a, "questionword"), "what"), 1.0) {
        if Positive(CountWords(Part(b, "clause"))) {
          m := Times(m, 0.9);
        }
        if Positive(CountWords(Part(b, "object"))) {
          if Positive(Matching(Part(b, "object"), "(a)")) {
            m := Times(m, 2.0);
          } else {
            m := Times(m, 0.7);
          }
        } else {
          m := Times(m, 0.3);
        }
      }
    }

    method QuestionExtra()
      modifies this`m
      ensures m == ExtraStep(tags, a, b, old(m))
    {
      if Positive(CountWords(Part(a, "extra"))) {
        var extra := Plus(Plus(PartScore(tags, a, "extra", b, "subject"), PartScore(tags, a, "extra", b, "object")),
                          PartScore(tags, a, "extra", b, "adverbs"));
        if Positive(extra) {
          m := Plus(m, extra);
        } else {
          m := Times(m, 0.75);
        }
      }
    }

    /** All rules in their order. */
    method Apply(o1: Xml, o2: Xml, matches: Score) returns (r: Score)
      modifies this
      ensures r == Filtered(tags, o1, o2, matches) && m == r
    {
      hide NoNamesFactor, NotFactor, WhoFactor, WhatFactor, ExtraStep, Times;
      m, a, b := matches, o1, o2;
      NoNames();
      Not();
      QuestionWho();
      QuestionWhat();
      QuestionExtra();
      r := m;
    }

    /** `operator %`. */
    method Score(o1: Xml, o2: Xml) returns (r: Score)
      modifies this
      ensures r == FactScore(tags, o1, o2)
    {
      if PartScore(tags, o1, "verb", o2, "verb") == Val(0.0) {
        return Val(0.0);
      }
      var matches := Plus(Plus(Plus(Val(0.0), RowScore(tags, o1, "subject", o2)), RowScore(tags, o1, "object", o2)),
                          RowScore(tags, o1, "adverbs", o2));
      r := Apply(o1, o2, matches);
    }
  }

  // ---- definedness ---------------------------------------------------------------------

  /** A part is a list that is not "synonyms", so its score is a number: the 0/0 of
      synonyms below it was thrown away by a `m > 0` test on the way up. */
  lemma PartCompareProper(tags: Tagging, o1: Xml, o2: Xml)
    requires NameOf(o1) != "" && NameOf(o1) != "synonyms"
    ensures Proper(Compare(Weigh(tags), o1, o2))
  {
  }

  /** The 0/0 does happen: a "synonyms" list without a match has no score of its own. */
  lemma SynonymsUndefinedIff(tags: Tagging, content: seq<Xml>, o2: Xml)
    ensures Compare(Weigh(tags), ListNode("synonyms", content), o2).Undefined? <==> !SomeLeft(content, o2)
  {
    var o1 := ListNode("synonyms", content);
    CompareCases(Weigh(tags), o1, o2);
    var g := GatherLeft(Weigh(tags), content, o2);
    FinishPositive("synonyms", g.0, g.1, |content|, true);
    LeftHolds(Weigh(tags), content, o2);
  }

  lemma {:induction false} AgainstAllProper(tags: Tagging, o1: Xml, v2: seq<Xml>)
    requires NameOf(o1) != "" && NameOf(o1) != "synonyms"
    ensures Proper(AgainstAll(tags, o1, v2))
    decreases |v2|
  {
    hide Compare;
    if v2 != [] {
      PartCompareProper(tags, o1, v2[0]);
      AgainstAllProper(tags, o1, v2[1..]);
    }
  }

  lemma {:induction false} AllAgainstAllProper(tags: Tagging, v1: seq<Xml>, v2: seq<Xml>)
    requires forall o :: o in v1 ==> NameOf(o) != "" && NameOf(o) != "synonyms"
    ensures Proper(AllAgainstAll(tags, v1, v2))
    decreases |v1|
  {
    hide AgainstAll;
    if v1 != [] {
      assert v1[0] in v1;
      AgainstAllProper(tags, v1[0], v2);
      AllAgainstAllProper(tags, v1[1..], v2);
    }
  }

  lemma RowProper(tags: Tagging, o1: Xml, tag1: string, o2: Xml)
    requires tag1 != "" && tag1 != "synonyms"
    ensures Proper(RowScore(tags, o1, tag1, o2))
  {
    hide AllAgainstAll, Parts;
    PartsNamed(o1, tag1);
    AllAgainstAllProper(tags, Parts(o1, tag1), Parts(o2, "subject"));
    AllAgainstAllProper(tags, Parts(o1, tag1), Parts(o2, "object"));
    AllAgainstAllProper(tags, Parts(o1, tag1), Parts(o2, "adverbs"));
  }

  lemma PartsNamed(o: Xml, tag: string)
    ensures forall p :: p in Parts(o, tag) ==> NameOf(p) == tag
  {
  }

  lemma RawProper(tags: Tagging, o1: Xml, o2: Xml)
    ensures Proper(RawScore(tags, o1, o2))
  {
    hide RowScore;
    RowProper(tags, o1, "subject", o2);
    RowProper(tags, o1, "object", o2);
    RowProper(tags, o1, "adverbs", o2);
  }

  lemma FactorsPositive(tags: Tagging, a: Xml, b: Xml)
    ensures NoNamesFactor(b) > 0.0 && NotFactor(b) > 0.0 && WhoFactor(tags, a, b) > 0.0 && WhatFactor(a, b) > 0.0
  {
    hide Matching, Part, CountWords, CountTagged;
  }

  lemma TimesKeepsSign(m: Score, k: real)
    requires Proper(m) && k > 0.0
    ensures Proper(Times(m, k)) && (Positive(Times(m, k)) <==> Positive(m))
  {
    if m.value > 0.0 { assert m.value * k > 0.0; }
  }

  /** The filters keep a score defined and non-negative, and a positive score positive; a
      zero score they raise only where the "extra" parts match. */
  lemma FiltersKeepSign(tags: Tagging, a: Xml, b: Xml, m: Score)
    requires Proper(m)
    ensures Proper(Filtered(tags, a, b, m))
    ensures Positive(Filtered(tags, a, b, m)) <==>
              Positive(m) || (Positive(CountWords(Part(a, "extra"))) && Positive(RowScore(tags, a, "extra", b)))
  {
    hide NoNamesFactor, NotFactor, WhoFactor, WhatFactor, ExtraStep, Times, RowScore, CountWords, Part;
    FactorsPositive(tags, a, b);
    RowProper(tags, a, "extra", b);
    TimesKeepsSign(m, NoNamesFactor(b));
    var m1 := Times(m, NoNamesFactor(b));
    TimesKeepsSign(m1, NotFactor(b));
    var m2 := Times(m1, NotFactor(b));
    TimesKeepsSign(m2, WhoFactor(tags, a, b));
    var m3 := Times(m2, WhoFactor(tags, a, b));
    TimesKeepsSign(m3, WhatFactor(a, b));
    var m4 := Times(m3, WhatFactor(a, b));
    ExtraSign(tags, a, b, m4);
  }

  lemma ExtraSign(tags: Tagging, a: Xml, b: Xml, m: Score)
    requires Proper(m) && Proper(RowScore(tags, a, "extra", b))
    ensures Proper(ExtraStep(tags, a, b, m))
    ensures Positive(ExtraStep(tags, a, b, m)) <==>
              Positive(m) || (Positive(CountWords(Part(a, "extra"))) && Positive(RowScore(tags, a, "extra", b)))
  {
    hide RowScore, CountWords, Part;
  }

  /** Every two trees have a defined, non-negative score. */
  lemma ScoreProper(tags: Tagging, o1: Xml, o2: Xml)
    ensures Proper(FactScore(tags, o1, o2))
  {
    RawProper(tags, o1, o2);
    FiltersKeepSign(tags, o1, o2, RawScore(tags, o1, o2));
  }

  // ---- when a score is positive ------------------------------------------------------------

  /** A child of `o1` under one tag matches a child of `o2` under another. */
  ghost predicate SomeMatch(o1: Xml, tag1: string, o2: Xml, tag2: string) {
    exists p, q :: p in Embedded(o1) && q in Embedded(o2) && NameOf(p) == tag1 && NameOf(q) == tag2 && Holds(p, q)
  }

  lemma {:induction false} NamedAre(kids: seq<Xml>, tag: string)
    ensures forall k :: k in Named(kids, tag) <==> k in kids && NameOf(k) == tag
    decreases |kids|
  {
    if kids != [] {
      NamedAre(kids[1..], tag);
      assert forall k :: k in kids <==> k == kids[0] || k in kids[1..];
    }
  }

  lemma PlusSign(a: Score, b: Score)
    requires Proper(a) && Proper(b)
    ensures Proper(Plus(a, b)) && (Positive(Plus(a, b)) <==> Positive(a) || Positive(b))
  {
  }

  lemma {:induction false} AgainstAllSign(tags: Tagging, o1: Xml, v2: seq<Xml>)
    requires NameOf(o1) != "" && NameOf(o1) != "synonyms"
    ensures Proper(AgainstAll(tags, o1, v2))
    ensures Positive(AgainstAll(tags, o1, v2)) <==> exists q :: q in v2 && Holds(o1, q)
    decreases |v2|
  {
    hide Compare, Holds;
    if v2 != [] {
      PartCompareProper(tags, o1, v2[0]);
      PositiveIffHolds(Weigh(tags), o1, v2[0]);
      AgainstAllSign(tags, o1, v2[1..]);
      PlusSign(Compare(Weigh(tags), o1, v2[0]), AgainstAll(tags, o1, v2[1..]));
      assert forall q :: q in v2 <==> q == v2[0] || q in v2[1..];
    }
  }

  lemma {:induction false} AllAgainstAllSign(tags: Tagging, v1: seq<Xml>, v2: seq<Xml>)
    requires forall o :: o in v1 ==> NameOf(o) != "" && NameOf(o) != "synonyms"
    ensures Proper(AllAgainstAll(tags, v1, v2))
    ensures Positive(AllAgainstAll(tags, v1, v2)) <==> exists p, q :: p in v1 && q in v2 && Holds(p, q)
    decreases |v1|
  {
    hide AgainstAll, Holds;
    if v1 != [] {
      assert v1[0] in v1;
      AgainstAllSign(tags, v1[0], v2);
      AllAgainstAllSign(tags, v1[1..], v2);
      PlusSign(AgainstAll(tags, v1[0], v2), AllAgainstAll(tags, v1[1..], v2));
      assert forall p :: p in v1 <==> p == v1[0] || p in v1[1..];
    }
  }

  lemma PartSign(tags: Tagging, o1: Xml, tag1: string, o2: Xml, tag2: string)
    requires tag1 != "" && tag1 != "synonyms"
    ensures Proper(PartScore(tags, o1, tag1, o2, tag2))
    ensures Positive(PartScore(tags, o1, tag1, o2, tag2)) <==> SomeMatch(o1, tag1, o2, tag2)
  {
    hide AllAgainstAll, Holds, Named;
    NamedAre(Embedded(o1), tag1);
    NamedAre(Embedded(o2), tag2);
    AllAgainstAllSign(tags, Parts(o1, tag1), Parts(o2, tag2));
  }

  /** A part of one fact matches a subject, an object or adverbs of the other. */
  ghost predicate MatchesPart(o1: Xml, tag1: string, o2: Xml) {
    SomeMatch(o1, tag1, o2, "subject") || SomeMatch(o1, tag1, o2, "object") || SomeMatch(o1, tag1, o2, "adverbs")
  }

  lemma RowSign(tags: Tagging, o1: Xml, tag1: string, o2: Xml)
    requires tag1 != "" && tag1 != "synonyms"
    ensures Proper(RowScore(tags, o1, tag1, o2))
    ensures Positive(RowScore(tags, o1, tag1, o2)) <==> MatchesPart(o1, tag1, o2)
  {
    hide PartScore, SomeMatch;
    PartSign(tags, o1, tag1, o2, "subject");
    PartSign(tags, o1, tag1, o2, "object");
    PartSign(tags, o1, tag1, o2, "adverbs");
  }

  lemma RawSign(tags: Tagging, o1: Xml, o2: Xml)
    ensures Proper(RawScore(tags, o1, o2))
    ensures Positive(RawScore(tags, o1, o2)) <==>
              MatchesPart(o1, "subject", o2) || MatchesPart(o1, "object", o2) || MatchesPart(o1, "adverbs", o2)
  {
    hide RowScore, MatchesPart;
    RowSign(tags, o1, "subject", o2);
    RowSign(tags, o1, "object", o2);
    RowSign(tags, o1, "adverbs", o2);
    PlusSign(Val(0.0), RowScore(tags, o1, "subject", o2));
  }

  /** No list of alternatives that count is empty. */
  predicate AlternativesFull(o: Xml) {
    o.ListNode? ==>
      ((o.name == "link_|" || o.name == "synonyms") ==> o.content != []) && KidsFull(o.content)
  }

  predicate KidsFull(kids: seq<Xml>) {
    kids == [] || ((Aside(kids[0]) || AlternativesFull(kids[0])) && KidsFull(kids[1..]))
  }

  /** Question words, extras, truths and clauses are not counted. */
  predicate Aside(o: Xml) {
    NameOf(o) in {"questionword", "extra", "truth", "clause"}
  }

  predicate SomeWord(o: Xml) {
    match o
    case TextNode(text) => TextWords(text) != []
    case ListNode(_, content) => SomeKidWord(content)
  }

  predicate SomeKidWord(kids: seq<Xml>) {
    kids != [] && ((!Aside(kids[0]) && SomeWord(kids[0])) || SomeKidWord(kids[1..]))
  }

  /** A tree has a positive count of words exactly when some text that counts has a word, and
      no list of alternatives that counts is empty; only then the count is undefined. */
  lemma {:induction false} CountPositiveIff(o: Xml)
    ensures CountWords(o).Val? <==> AlternativesFull(o)
    ensures Positive(CountWords(o)) <==> AlternativesFull(o) && SomeWord(o)
    ensures CountWords(o).Val? ==> CountWords(o).value >= 0.0
    decreases o, 1
  {
    if o.ListNode? {
      CountKidsPositiveIff(o.content);
      var c := CountKids(o.content);
      if o.content != [] && c.Val? { QuotientSign(c.value, |o.content| as real); }
    }
  }

  lemma QuotientSign(a: real, b: real)
    requires a >= 0.0 && b >= 1.0
    ensures a / b >= 0.0 && (a / b > 0.0 <==> a > 0.0)
  {
    if a > 0.0 { Quotient(a, b); }
  }

  lemma {:induction false} CountKidsPositiveIff(kids: seq<Xml>)
    ensures CountKids(kids).Val? <==> KidsFull(kids)
    ensures Positive(CountKids(kids)) <==> KidsFull(kids) && SomeKidWord(kids)
    ensures CountKids(kids).Val? ==> CountKids(kids).value >= 0.0
    decreases kids, 0
  {
    hide CountWords, AlternativesFull, SomeWord;
    if kids != [] {
      CountKidsPositiveIff(kids[1..]);
      CountPositiveIff(kids[0]);
    }
  }

  /** `n` times the count `c`. */
  function Multiple(c: real, n: nat): real {
    c * n as real
  }

  lemma Multiples(c: real, n: nat)
    ensures Multiple(c, 0) == 0.0 && Multiple(c, n + 1) == c + Multiple(c, n)
    ensures n > 0 ==> Multiple(c, n) / n as real == c
  {
    assert (n + 1) as real == n as real + 1.0;
  }

  lemma FirstCount(kids: seq<Xml>, c: real)
    requires kids != [] && !Aside(kids[0]) && CountWords(kids[0]) == Val(c)
    ensures CountKids(kids) == Plus(Val(c), CountKids(kids[1..]))
  {
    hide CountWords;
  }

  lemma {:induction false} EqualCounts(kids: seq<Xml>, c: real)
    requires forall k :: k in kids ==> !Aside(k) && CountWords(k) == Val(c)
    ensures CountKids(kids) == Val(Multiple(c, |kids|))
    decreases |kids|
  {
    hide CountWords, CountKids, Aside, Multiple;
    if kids == [] {
      NothingCounted();
      Multiples(c, 0);
    } else {
      assert kids[0] in kids;
      EqualCounts(kids[1..], c);
      FirstCount(kids, c);
      Multiples(c, |kids[1..]|);
    }
  }

  lemma NothingCounted()
    ensures CountKids([]) == Val(0.0)
  {
  }

  lemma CountOfList(name: string, kids: seq<Xml>, sum: real)
    requires kids != [] && CountKids(kids) == Val(sum)
    ensures CountWords(ListNode(name, kids)) ==
      Val(if name == "link_|" || name == "synonyms" then sum / |kids| as real else sum)
  {
    hide CountKids;
  }

  /** Alternatives of equally many words count as one of them, where other lists sum them up. */
  lemma AlternativesCountOnce(name: string, kids: seq<Xml>, c: real)
    requires kids != [] && forall k :: k in kids ==> !Aside(k) && CountWords(k) == Val(c)
    ensures CountWords(ListNode(name, kids)) ==
      Val(if name == "link_|" || name == "synonyms" then c else Multiple(c, |kids|))
  {
    hide CountWords, CountKids, Aside, Multiple;
    EqualCounts(kids, c);
    CountOfList(name, kids, Multiple(c, |kids|));
    Multiples(c, |kids|);
  }

  ghost predicate HasWords(o: Xml) { AlternativesFull(o) && SomeWord(o) }

  /** The children under one tag have words, and no empty list of alternatives among them. */
  ghost predicate PartHasWords(o: Xml, tag: string) {
    && (forall p :: p in Embedded(o) && NameOf(p) == tag ==> AlternativesFull(p))
    && exists p :: p in Embedded(o) && NameOf(p) == tag && SomeWord(p)
  }

  lemma {:induction false} KidsConcat(a: seq<Xml>, b: seq<Xml>)
    ensures KidsFull(a + b) <==> KidsFull(a) && KidsFull(b)
    ensures SomeKidWord(a + b) <==> SomeKidWord(a) || SomeKidWord(b)
    decreases |a|
  {
    hide AlternativesFull, SomeWord, Aside;
    if a == [] {
      assert a + b == b;
    } else {
      KidsConcat(a[1..], b);
      assert (a + b)[1..] == a[1..] + b && (a + b)[0] == a[0];
    }
  }

  lemma {:induction false} MergedKids(parts: seq<Xml>, tag: string)
    requires tag !in {"", "link_|", "synonyms"} && forall p :: p in parts ==> NameOf(p) == tag
    ensures KidsFull(Merged(parts)) <==> forall p :: p in parts ==> AlternativesFull(p)
    ensures SomeKidWord(Merged(parts)) <==> exists p :: p in parts && SomeWord(p)
    decreases |parts|
  {
    hide KidsFull, SomeKidWord;
    NoKids();
    if parts != [] {
      assert parts[0] in parts;
      MergedKids(parts[1..], tag);
      KidsConcat(Embedded(parts[0]), Merged(parts[1..]));
      assert forall p :: p in parts <==> p == parts[0] || p in parts[1..];
    }
  }

  lemma NoKids()
    ensures KidsFull([]) && !SomeKidWord([])
  {
  }

  lemma PartWithWords(o: Xml, tag: string)
    requires tag !in {"", "link_|", "synonyms"}
    ensures HasWords(Part(o, tag)) <==> PartHasWords(o, tag)
  {
    hide KidsFull, SomeKidWord, Named, Merged;
    var parts := Parts(o, tag);
    NamedAre(Embedded(o), tag);
    MergedKids(parts, tag);
    if |parts| == 1 { assert parts[0] in parts; }
  }

  /** A fact has a positive score exactly when a verb matches a verb, and a subject, an object
      or adverbs match one of these three, or the extra has words and one extra matches one. */
  lemma ScorePositiveIff(tags: Tagging, o1: Xml, o2: Xml)
    ensures Positive(FactScore(tags, o1, o2)) <==>
              && SomeMatch(o1, "verb", o2, "verb")
              && (|| MatchesPart(o1, "subject", o2) || MatchesPart(o1, "object", o2) || MatchesPart(o1, "adverbs", o2)
                  || (PartHasWords(o1, "extra") && MatchesPart(o1, "extra", o2)))
    ensures !SomeMatch(o1, "verb", o2, "verb") ==> FactScore(tags, o1, o2) == Val(0.0)
  {
    hide PartScore, RawScore, RowScore, Filtered, MatchesPart, SomeMatch, AlternativesFull, SomeWord, Part, CountWords,
         PartHasWords;
    PartSign(tags, o1, "verb", o2, "verb");
    RawSign(tags, o1, o2);
    FiltersKeepSign(tags, o1, o2, RawScore(tags, o1, o2));
    RowSign(tags, o1, "extra", o2);
    CountPositiveIff(Part(o1, "extra"));
    PartWithWords(o1, "extra");
  }

  // ---- how much it is ----------------------------------------------------------------------

  /** The score of two trees, if both are among the named ones. */
  ghost function PairScore(tags: Tagging, p: Xml, names1: set<string>, q: Xml, names2: set<string>): real {
    var s := Compare(Weigh(tags), p, q);
    if NameOf(p) in names1 && NameOf(q) in names2 && s.Val? then s.value else 0.0
  }

  ghost function PairsOfOne(tags: Tagging, p: Xml, names1: set<string>, kids2: seq<Xml>, names2: set<string>): real {
    if kids2 == [] then 0.0
    else PairScore(tags, p, names1, kids2[0], names2) + PairsOfOne(tags, p, names1, kids2[1..], names2)
  }

  /** The sum of the scores over all pairs of named children of two trees. */
  ghost function PairsSum(tags: Tagging, kids1: seq<Xml>, names1: set<string>,
                          kids2: seq<Xml>, names2: set<string>): real {
    if kids1 == [] then 0.0
    else PairsOfOne(tags, kids1[0], names1, kids2, names2) + PairsSum(tags, kids1[1..], names1, kids2, names2)
  }

  lemma {:induction false} AgainstNamed(tags: Tagging, p: Xml, kids2: seq<Xml>, tag1: string, tag2: string)
    requires NameOf(p) == tag1 && tag1 !in {"", "synonyms"}
    ensures AgainstAll(tags, p, Named(kids2, tag2)) == Val(PairsOfOne(tags, p, {tag1}, kids2, {tag2}))
    decreases |kids2|
  {
    hide Compare;
    if kids2 != [] {
      PartCompareProper(tags, p, kids2[0]);
      AgainstNamed(tags, p, kids2[1..], tag1, tag2);
      var rest := Named(kids2[1..], tag2);
      assert ([kids2[0]] + rest)[1..] == rest;
    }
  }

  lemma {:induction false} OtherNames(tags: Tagging, p: Xml, names1: set<string>, kids2: seq<Xml>, names2: set<string>)
    requires NameOf(p) !in names1
    ensures PairsOfOne(tags, p, names1, kids2, names2) == 0.0
    decreases |kids2|
  {
    if kids2 != [] { OtherNames(tags, p, names1, kids2[1..], names2); }
  }

  lemma {:induction false} AllAgainstNamed(tags: Tagging, kids1: seq<Xml>, kids2: seq<Xml>, tag1: string, tag2: string)
    requires tag1 !in {"", "synonyms"}
    ensures AllAgainstAll(tags, Named(kids1, tag1), Named(kids2, tag2)) ==
      Val(PairsSum(tags, kids1, {tag1}, kids2, {tag2}))
    decreases |kids1|
  {
    hide AgainstAll, PairsOfOne;
    if kids1 != [] {
      AllAgainstNamed(tags, kids1[1..], kids2, tag1, tag2);
      var rest := Named(kids1[1..], tag1);
      assert ([kids1[0]] + rest)[1..] == rest;
      if NameOf(kids1[0]) == tag1 {
        AgainstNamed(tags, kids1[0], kids2, tag1, tag2);
      } else {
        OtherNames(tags, kids1[0], {tag1}, kids2, {tag2});
      }
    }
  }

  lemma {:induction false} OneNamesAdd(tags: Tagging, p: Xml, a: set<string>, kids2: seq<Xml>,
                                       b: set<string>, b': set<string>)
    requires b !! b'
    ensures PairsOfOne(tags, p, a, kids2, b + b') ==
      PairsOfOne(tags, p, a, kids2, b) + PairsOfOne(tags, p, a, kids2, b')
    decreases |kids2|
  {
    hide Compare;
    if kids2 != [] { OneNamesAdd(tags, p, a, kids2[1..], b, b'); }
  }

  lemma {:induction false} RightNamesAdd(tags: Tagging, kids1: seq<Xml>, a: set<string>, kids2: seq<Xml>,
                                         b: set<string>, b': set<string>)
    requires b !! b'
    ensures PairsSum(tags, kids1, a, kids2, b + b') ==
      PairsSum(tags, kids1, a, kids2, b) + PairsSum(tags, kids1, a, kids2, b')
    decreases |kids1|
  {
    hide PairsOfOne;
    if kids1 != [] {
      RightNamesAdd(tags, kids1[1..], a, kids2, b, b');
      OneNamesAdd(tags, kids1[0], a, kids2, b, b');
    }
  }

  lemma {:induction false} SameOfOne(tags: Tagging, p: Xml, a: set<string>, a': set<string>,
                                     kids2: seq<Xml>, b: set<string>)
    requires NameOf(p) in a <==> NameOf(p) in a'
    ensures PairsOfOne(tags, p, a, kids2, b) == PairsOfOne(tags, p, a', kids2, b)
    decreases |kids2|
  {
    hide Compare;
    if kids2 != [] { SameOfOne(tags, p, a, a', kids2[1..], b); }
  }

  lemma {:induction false} LeftNamesAdd(tags: Tagging, kids1: seq<Xml>, a: set<string>, a': set<string>,
                                        kids2: seq<Xml>, b: set<string>)
    requires a !! a'
    ensures PairsSum(tags, kids1, a + a', kids2, b) ==
      PairsSum(tags, kids1, a, kids2, b) + PairsSum(tags, kids1, a', kids2, b)
    decreases |kids1|
  {
    hide PairsOfOne;
    if kids1 != [] {
      var p := kids1[0];
      LeftNamesAdd(tags, kids1[1..], a, a', kids2, b);
      if NameOf(p) in a {
        SameOfOne(tags, p, a + a', a, kids2, b);
        OtherNames(tags, p, a', kids2, b);
      } else {
        SameOfOne(tags, p, a + a', a', kids2, b);
        OtherNames(tags, p, a, kids2, b);
      }
    }
  }

  const PARTS: set<string> := {"subject", "object", "adverbs"}

  lemma RowIsPairs(tags: Tagging, o1: Xml, tag1: string, o2: Xml)
    requires tag1 !in {"", "synonyms"}
    ensures RowScore(tags, o1, tag1, o2) == Val(PairsSum(tags, Embedded(o1), {tag1}, Embedded(o2), PARTS))
  {
    hide AllAgainstAll, Named, PairsSum;
    var k1, k2 := Embedded(o1), Embedded(o2);
    AllAgainstNamed(tags, k1, k2, tag1, "subject");
    AllAgainstNamed(tags, k1, k2, tag1, "object");
    AllAgainstNamed(tags, k1, k2, tag1, "adverbs");
    RightNamesAdd(tags, k1, {tag1}, k2, {"subject"}, {"object"});
    RightNamesAdd(tags, k1, {tag1}, k2, {"subject"} + {"object"}, {"adverbs"});
    assert {"subject"} + {"object"} + {"adverbs"} == PARTS;
  }

  /** Before the filters, the score is the sum over all pairs of a subject, object or adverbs of
      one fact with a subject, object or adverbs of the other. */
  lemma RawIsPairs(tags: Tagging, o1: Xml, o2: Xml)
    ensures RawScore(tags, o1, o2) == Val(PairsSum(tags, Embedded(o1), PARTS, Embedded(o2), PARTS))
  {
    hide RowScore, PairsSum;
    var k1, k2 := Embedded(o1), Embedded(o2);
    RowIsPairs(tags, o1, "subject", o2);
    RowIsPairs(tags, o1, "object", o2);
    RowIsPairs(tags, o1, "adverbs", o2);
    LeftNamesAdd(tags, k1, {"subject"}, {"object"}, k2, PARTS);
    LeftNamesAdd(tags, k1, {"subject"} + {"object"}, {"adverbs"}, k2, PARTS);
    assert {"subject"} + {"object"} + {"adverbs"} == PARTS;
  }
}
