/** Similarity of fact trees: the recursive operators `&&` and `&`, their averaging over
    synonyms with its possible 0/0, and the score `%` behind its filters. */
module Scoring {
  import opened Text
  import opened XmlCodec
  import opened Words

  /** A double that may be the result of 0/0. Rounding is not modelled. */
  datatype Score = Undefined | Val(value: real)

  predicate Positive(s: Score) { s.Val? && s.value > 0.0 }

  predicate Proper(s: Score) { s.Val? && s.value >= 0.0 }

  function Plus(a: Score, b: Score): Score {
    if a.Val? && b.Val? then Val(a.value + b.value) else Undefined
  }

  function Times(a: Score, k: real): Score {
    if a.Val? then Val(a.value * k) else Undefined
  }

  /** The tags of the words of the two trees, where they have been tagged. */
  datatype Tagging = Tagging(left: map<string, string>, right: map<string, string>)

  /** `&&` counts common words, `&` weighs them by the taggings of the words. */
  datatype Mode = Count | Weigh(tags: Tagging)

  predicate SameWord(a: string, b: string) {
    a == b || Lower(a) == Lower(b)
  }

  function TagWeight(tag: string): (w: real)
    ensures 0.0 < w <= 1.0
  {
    if tag == "n" then 1.0 else if tag == "adj" then 0.5 else if tag == "v" then 0.75
    else if tag == "art" then 0.1 else 0.4
  }

  function WordWeight(tags: Tagging, a: string, b: string): (w: real)
    ensures 0.0 < w <= 1.0
  {
    if a in tags.left then TagWeight(tags.left[a])
    else if b in tags.right then TagWeight(tags.right[b])
    else 0.75
  }

  /** A word against a text: the first word equal to it decides. */
  function WordScore(mode: Mode, w: string, words: seq<string>, n: nat): (r: real)
    requires n >= |words|
    ensures 0.0 <= r <= 1.0
    ensures r > 0.0 <==> exists v :: v in words && SameWord(w, v)
  {
    if words == [] then 0.0
    else if SameWord(w, words[0]) then
      assert words[0] in words;
      match mode
      case Count => 1.0
      case Weigh(tags) => Share(WordWeight(tags, w, words[0]), n)
    else
      assert forall v :: v in words <==> v == words[0] || v in words[1..];
      WordScore(mode, w, words[1..], n)
  }

  /** matches * (3 n + 1) / 4 / n */
  function Share(weight: real, n: nat): (r: real)
    requires n >= 1 && 0.0 < weight <= 1.0
    ensures 0.0 < r <= 1.0
  {
    ShareBounds(weight, n as real);
    weight * (3.0 * n as real + 1.0) / 4.0 / n as real
  }

  lemma ShareBounds(weight: real, n: real)
    requires n >= 1.0 && 0.0 < weight <= 1.0
    ensures 0.0 < weight * (3.0 * n + 1.0) / 4.0 / n <= 1.0
  {
  }

  function WordsScore(mode: Mode, words: seq<string>, others: seq<string>): (r: real)
    ensures 0.0 <= r <= |words| as real
    ensures r > 0.0 <==> exists w, v :: w in words && v in others && SameWord(w, v)
  {
    if words == [] then 0.0
    else
      assert forall w :: w in words <==> w == words[0] || w in words[1..];
      assert words[0] in words;
      WordScore(mode, words[0], others, |others|) + WordsScore(mode, words[1..], others)
  }

  /** What a list makes of its children's positive scores. */
  function Finish(name: string, sum: real, count: nat, size: nat, averages: bool): Score {
    var m := if name == "link_&" && count != size then 0.0 else sum;
    if name == "synonyms" && averages then (if count == 0 then Undefined else Val(m / count as real))
    else Val(m)
  }

  /** `o1 && o2` and `o1 & o2`. */
  function Compare(mode: Mode, o1: Xml, o2: Xml): Score
    decreases o1, o2, 1
  {
    match o1
    case ListNode(name, content) =>
      var (sum, count) := GatherLeft(mode, content, o2);
      Finish(name, sum, count, |content|, true)
    case TextNode(text1) =>
      match o2
      case TextNode(text2) => Val(WordsScore(mode, TextWords(text1), TextWords(text2)))
      case ListNode(name, content) =>
        var (sum, count) := GatherRight(mode, o1, content);
        Finish(name, sum, count, |content|, mode.Weigh?)
  }

  function Tally(m: Score, rest: (real, nat)): (real, nat) {
    if Positive(m) then (m.value + rest.0, rest.1 + 1) else rest
  }

  /** Sum and number of the positive scores. */
  function GatherLeft(mode: Mode, kids: seq<Xml>, o2: Xml): (r: (real, nat))
    ensures r.0 >= 0.0 && r.1 <= |kids| && (r.1 > 0 <==> r.0 > 0.0)
    decreases kids, o2, 0
  {
    if kids == [] then (0.0, 0) else Tally(Compare(mode, kids[0], o2), GatherLeft(mode, kids[1..], o2))
  }

  function GatherRight(mode: Mode, o1: Xml, kids: seq<Xml>): (r: (real, nat))
    ensures r.0 >= 0.0 && r.1 <= |kids| && (r.1 > 0 <==> r.0 > 0.0)
    decreases o1, kids, 0
  {
    if kids == [] then (0.0, 0) else Tally(Compare(mode, o1, kids[0]), GatherRight(mode, o1, kids[1..]))
  }

  lemma {:induction false} GatherLeftSnoc(mode: Mode, kids: seq<Xml>, k: Xml, o2: Xml)
    ensures var (s, n) := GatherLeft(mode, kids, o2); var m := Compare(mode, k, o2);
            GatherLeft(mode, kids + [k], o2) == if Positive(m) then (s + m.value, n + 1) else (s, n)
    decreases |kids|
  {
    hide Compare;
    if kids == [] {
      assert [k][1..] == [] && kids + [k] == [k];
      assert GatherLeft(mode, [], o2) == (0.0, 0);
    } else {
      GatherLeftSnoc(mode, kids[1..], k, o2);
      assert (kids + [k])[1..] == kids[1..] + [k];
    }
  }

  lemma {:induction false} GatherRightSnoc(mode: Mode, o1: Xml, kids: seq<Xml>, k: Xml)
    ensures var (s, n) := GatherRight(mode, o1, kids); var m := Compare(mode, o1, k);
            GatherRight(mode, o1, kids + [k]) == if Positive(m) then (s + m.value, n + 1) else (s, n)
    decreases |kids|
  {
    hide Compare;
    if kids == [] {
      assert [k][1..] == [] && kids + [k] == [k];
      assert GatherRight(mode, o1, []) == (0.0, 0);
    } else {
      GatherRightSnoc(mode, o1, kids[1..], k);
      assert (kids + [k])[1..] == kids[1..] + [k];
    }
  }

  /** The operators as they run, summing up in local variables. */
  method CompareLoop(mode: Mode, o1: Xml, o2: Xml) returns (r: Score)
    ensures r == Compare(mode, o1, o2)
    decreases o1, o2
  {
    hide GatherLeft, GatherRight, Compare, WordsScore;
    CompareCases(mode, o1, o2);
    var matches, count := 0.0, 0;
    if o1.TextNode? && o2.TextNode? {
      r := Val(WordsScore(mode, TextWords(o1.text), TextWords(o2.text)));
    } else if o1.ListNode? {
      var k := 0;
      assert o1.content[..0] == [];
      while k < |o1.content|
        invariant 0 <= k <= |o1.content|
        invariant (matches, count) == GatherLeft(mode, o1.content[..k], o2)
      {
        var m := CompareLoop(mode, o1.content[k], o2);
        GatherLeftSnoc(mode, o1.content[..k], o1.content[k], o2);
        assert o1.content[..k + 1] == o1.content[..k] + [o1.content[k]];
        if Positive(m) {
          matches, count := matches + m.value, count + 1;
        }
        k := k + 1;
      }
      assert o1.content[..k] == o1.content;
      r := Finish(o1.name, matches, count, |o1.content|, true);
    } else {
      var k := 0;
      assert o2.content[..0] == [];
      while k < |o2.content|
        invariant 0 <= k <= |o2.content|
        invariant (matches, count) == GatherRight(mode, o1, o2.content[..k])
      {
        var m := CompareLoop(mode, o1, o2.content[k]);
        GatherRightSnoc(mode, o1, o2.content[..k], o2.content[k]);
        assert o2.content[..k + 1] == o2.content[..k] + [o2.content[k]];
        if Positive(m) {
          matches, count := matches + m.value, count + 1;
        }
        k := k + 1;
      }
      assert o2.content[..k] == o2.content;
      r := Finish(o2.name, matches, count, |o2.content|, mode.Weigh?);
    }
  }

  lemma CompareCases(mode: Mode, o1: Xml, o2: Xml)
    ensures GatherLeft(mode, [], o2) == (0.0, 0) && GatherRight(mode, o1, []) == (0.0, 0)
    ensures o1.TextNode? && o2.TextNode? ==>
              Compare(mode, o1, o2) == Val(WordsScore(mode, TextWords(o1.text), TextWords(o2.text)))
    ensures o1.ListNode? ==>
              var g := GatherLeft(mode, o1.content, o2);
              Compare(mode, o1, o2) == Finish(o1.name, g.0, g.1, |o1.content|, true)
    ensures o1.TextNode? && o2.ListNode? ==>
              var g := GatherRight(mode, o1, o2.content);
              Compare(mode, o1, o2) == Finish(o2.name, g.0, g.1, |o2.content|, mode.Weigh?)
  {
  }

  // ---- when two trees match ----------------------------------------------------------

  /** "link_&" wants all of its children matched, and at least one; other lists want one. */
  predicate Holds(o1: Xml, o2: Xml)
    decreases o1, o2, 1
  {
    match o1
    case ListNode(name, content) =>
      if name == "link_&" then content != [] && AllLeft(content, o2) else SomeLeft(content, o2)
    case TextNode(text1) =>
      match o2
      case TextNode(text2) => exists w, v | w in TextWords(text1) && v in TextWords(text2) :: SameWord(w, v)
      case ListNode(name, content) =>
        if name == "link_&" then content != [] && AllRight(o1, content) else SomeRight(o1, content)
  }

  predicate AllLeft(kids: seq<Xml>, o2: Xml)
    decreases kids, o2, 0
  {
    kids == [] || (Holds(kids[0], o2) && AllLeft(kids[1..], o2))
  }

  predicate SomeLeft(kids: seq<Xml>, o2: Xml)
    decreases kids, o2, 0
  {
    kids != [] && (Holds(kids[0], o2) || SomeLeft(kids[1..], o2))
  }

  predicate AllRight(o1: Xml, kids: seq<Xml>)
    decreases o1, kids, 0
  {
    kids == [] || (Holds(o1, kids[0]) && AllRight(o1, kids[1..]))
  }

  predicate SomeRight(o1: Xml, kids: seq<Xml>)
    decreases o1, kids, 0
  {
    kids != [] && (Holds(o1, kids[0]) || SomeRight(o1, kids[1..]))
  }

  lemma FinishPositive(name: string, sum: real, count: nat, size: nat, averages: bool)
    requires sum >= 0.0 && count <= size && (count > 0 <==> sum > 0.0)
    ensures Positive(Finish(name, sum, count, size, averages)) <==>
              if name == "link_&" then count == size && size > 0 else count > 0
    ensures Finish(name, sum, count, size, averages).Val? ==>
              0.0 <= Finish(name, sum, count, size, averages).value <= sum
    ensures Finish(name, sum, count, size, averages).Undefined? <==> name == "synonyms" && averages && count == 0
  {
    if count > 0 { Quotient(sum, count as real); }
  }

  lemma Quotient(a: real, b: real)
    requires a > 0.0 && b >= 1.0
    ensures 0.0 < a / b <= a
  {
    assert a / b * b == a;
  }

  /** Both operators are positive exactly when the trees match. */
  lemma {:induction false} PositiveIffHolds(mode: Mode, o1: Xml, o2: Xml)
    ensures Positive(Compare(mode, o1, o2)) <==> Holds(o1, o2)
    ensures Compare(mode, o1, o2).Val? ==> Compare(mode, o1, o2).value >= 0.0
    decreases o1, o2, 1
  {
    hide WordsScore, Finish, TextWords;
    CompareCases(mode, o1, o2);
    if o1.ListNode? {
      LeftHolds(mode, o1.content, o2);
      var g := GatherLeft(mode, o1.content, o2);
      FinishPositive(o1.name, g.0, g.1, |o1.content|, true);
    } else if o2.ListNode? {
      RightHolds(mode, o1, o2.content);
      var g := GatherRight(mode, o1, o2.content);
      FinishPositive(o2.name, g.0, g.1, |o2.content|, mode.Weigh?);
    }
  }

  lemma {:induction false} LeftHolds(mode: Mode, kids: seq<Xml>, o2: Xml)
    ensures var n := GatherLeft(mode, kids, o2).1;
            (n > 0 <==> SomeLeft(kids, o2)) && (n == |kids| <==> AllLeft(kids, o2))
    decreases kids, o2, 0
  {
    hide Compare, Holds;
    if kids != [] {
      PositiveIffHolds(mode, kids[0], o2);
      LeftHolds(mode, kids[1..], o2);
    }
  }

  lemma {:induction false} RightHolds(mode: Mode, o1: Xml, kids: seq<Xml>)
    ensures var n := GatherRight(mode, o1, kids).1;
            (n > 0 <==> SomeRight(o1, kids)) && (n == |kids| <==> AllRight(o1, kids))
    decreases o1, kids, 0
  {
    hide Compare, Holds;
    if kids != [] {
      PositiveIffHolds(mode, o1, kids[0]);
      RightHolds(mode, o1, kids[1..]);
    }
  }

  /** All words in the text leaves, and the number of text leaves. */
  function LeafWords(o: Xml): seq<string> {
    match o
    case TextNode(text) => TextWords(text)
    case ListNode(_, content) => AllLeafWords(content)
  }

  function AllLeafWords(kids: seq<Xml>): seq<string> {
    if kids == [] then [] else LeafWords(kids[0]) + AllLeafWords(kids[1..])
  }

  function LeafCount(o: Xml): nat {
    match o
    case TextNode(_) => 1
    case ListNode(_, content) => AllLeafCount(content)
  }

  function AllLeafCount(kids: seq<Xml>): nat {
    if kids == [] then 0 else LeafCount(kids[0]) + AllLeafCount(kids[1..])
  }

  predicate NoLinkAnd(o: Xml) {
    o.ListNode? ==> o.name != "link_&" && NoneLinkAnd(o.content)
  }

  predicate NoneLinkAnd(kids: seq<Xml>) {
    kids == [] || (NoLinkAnd(kids[0]) && NoneLinkAnd(kids[1..]))
  }

  ghost predicate Shared(a: seq<string>, b: seq<string>) {
    exists w, v :: w in a && v in b && SameWord(w, v)
  }

  lemma SharedConcat(a: seq<string>, a': seq<string>, b: seq<string>)
    ensures Shared(a + a', b) <==> Shared(a, b) || Shared(a', b)
    ensures Shared(b, a + a') <==> Shared(b, a) || Shared(b, a')
  {
    assert forall w :: w in a + a' <==> w in a || w in a';
  }

  /** Without "link_&", trees match exactly when text leaves of both share a word. */
  lemma {:induction false} HoldsIffSharedWord(o1: Xml, o2: Xml)
    requires NoLinkAnd(o1) && NoLinkAnd(o2)
    ensures Holds(o1, o2) <==> Shared(LeafWords(o1), LeafWords(o2))
    decreases o1, o2, 1
  {
    hide TextWords, SameWord;
    if o1.ListNode? {
      LeftShared(o1.content, o2);
    } else if o2.ListNode? {
      RightShared(o1, o2.content);
    }
  }

  lemma {:induction false} LeftShared(kids: seq<Xml>, o2: Xml)
    requires NoneLinkAnd(kids) && NoLinkAnd(o2)
    ensures SomeLeft(kids, o2) <==> Shared(AllLeafWords(kids), LeafWords(o2))
    decreases kids, o2, 0
  {
    hide Shared, Holds, LeafWords, NoLinkAnd;
    if kids == [] {
      NothingShared(LeafWords(o2));
    } else {
      HoldsIffSharedWord(kids[0], o2);
      LeftShared(kids[1..], o2);
      SharedConcat(LeafWords(kids[0]), AllLeafWords(kids[1..]), LeafWords(o2));
    }
  }

  lemma {:induction false} RightShared(o1: Xml, kids: seq<Xml>)
    requires NoLinkAnd(o1) && NoneLinkAnd(kids)
    ensures SomeRight(o1, kids) <==> Shared(LeafWords(o1), AllLeafWords(kids))
    decreases o1, kids, 0
  {
    hide Shared, Holds, LeafWords, NoLinkAnd;
    if kids == [] {
      NothingShared(LeafWords(o1));
    } else {
      HoldsIffSharedWord(o1, kids[0]);
      RightShared(o1, kids[1..]);
      SharedConcat(LeafWords(kids[0]), AllLeafWords(kids[1..]), LeafWords(o1));
    }
  }

  lemma NothingShared(b: seq<string>)
    ensures !Shared([], b) && !Shared(b, [])
  {
  }

  // ---- what the scores are -----------------------------------------------------------

  lemma {:induction false} GatherLeftConcat(mode: Mode, a: seq<Xml>, b: seq<Xml>, o2: Xml)
    ensures var (s, n) := GatherLeft(mode, a, o2); var (t, m) := GatherLeft(mode, b, o2);
            GatherLeft(mode, a + b, o2) == (s + t, n + m)
    decreases |b|
  {
    hide Compare;
    if b == [] {
      assert a + b == a;
    } else {
      var front, last := b[..|b| - 1], b[|b| - 1];
      assert b == front + [last] && a + b == (a + front) + [last];
      GatherLeftConcat(mode, a, front, o2);
      GatherLeftSnoc(mode, a + front, last, o2);
      GatherLeftSnoc(mode, front, last, o2);
    }
  }

  lemma {:induction false} GatherRightConcat(mode: Mode, o1: Xml, a: seq<Xml>, b: seq<Xml>)
    ensures var (s, n) := GatherRight(mode, o1, a); var (t, m) := GatherRight(mode, o1, b);
            GatherRight(mode, o1, a + b) == (s + t, n + m)
    decreases |b|
  {
    hide Compare;
    if b == [] {
      assert a + b == a;
    } else {
      var front, last := b[..|b| - 1], b[|b| - 1];
      assert b == front + [last] && a + b == (a + front) + [last];
      GatherRightConcat(mode, o1, a, front);
      GatherRightSnoc(mode, o1, a + front, last);
      GatherRightSnoc(mode, o1, front, last);
    }
  }

  lemma OneGathered(mode: Mode, k: Xml, o: Xml)
    ensures GatherLeft(mode, [k], o) == Tally(Compare(mode, k, o), (0.0, 0))
    ensures GatherRight(mode, o, [k]) == Tally(Compare(mode, o, k), (0.0, 0))
  {
    assert [k][1..] == [];
  }

  /** A list sums up the positive scores of its children, on either side. */
  lemma ListsAddUp(mode: Mode, name: string, a: seq<Xml>, b: seq<Xml>, k: Xml, o: Xml)
    requires name != "link_&" && name != "synonyms"
    ensures Compare(mode, ListNode(name, a + b), o) ==
      Plus(Compare(mode, ListNode(name, a), o), Compare(mode, ListNode(name, b), o))
    ensures o.TextNode? ==>
      Compare(mode, o, ListNode(name, a + b)) ==
      Plus(Compare(mode, o, ListNode(name, a)), Compare(mode, o, ListNode(name, b)))
    ensures Compare(mode, ListNode(name, [k]), o) ==
      if Positive(Compare(mode, k, o)) then Compare(mode, k, o) else Val(0.0)
    ensures o.TextNode? ==>
      Compare(mode, o, ListNode(name, [k])) == if Positive(Compare(mode, o, k)) then Compare(mode, o, k) else Val(0.0)
  {
    hide Compare, GatherLeft, GatherRight;
    GatherLeftConcat(mode, a, b, o);
    GatherRightConcat(mode, o, a, b);
    OneGathered(mode, k, o);
    forall c: seq<Xml> ensures Compare(mode, ListNode(name, c), o) == Val(GatherLeft(mode, c, o).0) {
      CompareCases(mode, ListNode(name, c), o);
    }
    if o.TextNode? {
      forall c: seq<Xml> ensures Compare(mode, o, ListNode(name, c)) == Val(GatherRight(mode, o, c).0) {
        CompareCases(mode, o, ListNode(name, c));
      }
    }
  }

  /** "link_&" is worth what any other list of these children is, if all of them match. */
  lemma LinkAndIsAllOrNothing(mode: Mode, kids: seq<Xml>, o2: Xml)
    ensures Compare(mode, ListNode("link_&", kids), o2) ==
      if AllLeft(kids, o2) then Compare(mode, ListNode("link_|", kids), o2) else Val(0.0)
  {
    hide Compare, GatherLeft, AllLeft, SomeLeft;
    LeftHolds(mode, kids, o2);
    CompareCases(mode, ListNode("link_&", kids), o2);
    CompareCases(mode, ListNode("link_|", kids), o2);
  }

  /** `m` lies between the scores of two children that match. */
  ghost predicate BetweenLeft(mode: Mode, kids: seq<Xml>, o2: Xml, m: real) {
    exists lo, hi :: lo in kids && hi in kids && Positive(Compare(mode, lo, o2)) && Positive(Compare(mode, hi, o2)) &&
      Compare(mode, lo, o2).value <= m <= Compare(mode, hi, o2).value
  }

  ghost predicate BetweenRight(mode: Mode, o1: Xml, kids: seq<Xml>, m: real) {
    exists lo, hi :: lo in kids && hi in kids && Positive(Compare(mode, o1, lo)) && Positive(Compare(mode, o1, hi)) &&
      Compare(mode, o1, lo).value <= m <= Compare(mode, o1, hi).value
  }

  /** The mean of one more number lies between the old mean and the number. */
  lemma MeanBetween(sum: real, n: nat, m: real)
    requires n > 0
    ensures var mean, next := sum / n as real, (m + sum) / (n + 1) as real;
            (mean <= m ==> mean <= next <= m) && (m <= mean ==> m <= next <= mean)
  {
    var a, mean, next := n as real, sum / n as real, (m + sum) / (n + 1) as real;
    assert (n + 1) as real == a + 1.0;
    assert mean * a == sum && next * (a + 1.0) == m + sum;
    assert next * (a + 1.0) == mean * a + m;
    assert (next - mean) * (a + 1.0) == m - mean;
    assert (m - next) * (a + 1.0) == (m - mean) * a;
    ProductSign(next - mean, a + 1.0);
    ProductSign(m - next, a + 1.0);
    ProductSign(m - mean, a);
  }

  lemma ProductSign(x: real, k: real)
    requires k > 0.0
    ensures x * k >= 0.0 <==> x >= 0.0
    ensures x * k <= 0.0 <==> x <= 0.0
  {
    if x > 0.0 { assert x * k > 0.0; }
    if x < 0.0 { assert -x * k > 0.0; }
  }

  lemma {:induction false} MeanOfLeft(mode: Mode, kids: seq<Xml>, o2: Xml)
    ensures var (sum, n) := GatherLeft(mode, kids, o2); n > 0 ==> BetweenLeft(mode, kids, o2, sum / n as real)
    decreases |kids|
  {
    hide Compare;
    if kids != [] {
      MeanOfLeft(mode, kids[1..], o2);
      var m := Compare(mode, kids[0], o2);
      var (sum, n) := GatherLeft(mode, kids[1..], o2);
      assert forall k :: k in kids[1..] ==> k in kids;
      if Positive(m) && n > 0 {
        MeanBetween(sum, n, m.value);
        var lo, hi :| lo in kids[1..] && hi in kids[1..] && Positive(Compare(mode, lo, o2)) &&
          Positive(Compare(mode, hi, o2)) &&
          Compare(mode, lo, o2).value <= sum / n as real <= Compare(mode, hi, o2).value;
        assert kids[0] in kids && lo in kids && hi in kids;
      } else if Positive(m) {
        assert kids[0] in kids;
        assert (m.value + 0.0) / 1 as real == m.value;
      }
    }
  }

  lemma {:induction false} MeanOfRight(mode: Mode, o1: Xml, kids: seq<Xml>)
    ensures var (sum, n) := GatherRight(mode, o1, kids); n > 0 ==> BetweenRight(mode, o1, kids, sum / n as real)
    decreases |kids|
  {
    hide Compare;
    if kids != [] {
      MeanOfRight(mode, o1, kids[1..]);
      var m := Compare(mode, o1, kids[0]);
      var (sum, n) := GatherRight(mode, o1, kids[1..]);
      assert forall k :: k in kids[1..] ==> k in kids;
      if Positive(m) && n > 0 {
        MeanBetween(sum, n, m.value);
        var lo, hi :| lo in kids[1..] && hi in kids[1..] && Positive(Compare(mode, o1, lo)) &&
          Positive(Compare(mode, o1, hi)) &&
          Compare(mode, o1, lo).value <= sum / n as real <= Compare(mode, o1, hi).value;
        assert kids[0] in kids && lo in kids && hi in kids;
      } else if Positive(m) {
        assert kids[0] in kids;
        assert (m.value + 0.0) / 1 as real == m.value;
      }
    }
  }

  /** Synonyms are averaged: on the left always, on the right by `&` only, where `&&` adds them
      up like any other list. */
  lemma SynonymsAreAveraged(mode: Mode, kids: seq<Xml>, o: Xml)
    ensures var s := Compare(mode, ListNode("synonyms", kids), o);
            if SomeLeft(kids, o) then s.Val? && BetweenLeft(mode, kids, o, s.value) else s == Undefined
    ensures o.TextNode? && mode.Weigh? ==>
            var s := Compare(mode, o, ListNode("synonyms", kids));
            if SomeRight(o, kids) then s.Val? && BetweenRight(mode, o, kids, s.value) else s == Undefined
    ensures o.TextNode? && mode.Count? ==>
            Compare(mode, o, ListNode("synonyms", kids)) == Compare(mode, o, ListNode("link_|", kids))
  {
    hide Compare, GatherLeft, GatherRight, SomeLeft, SomeRight, AllLeft, AllRight, BetweenLeft, BetweenRight;
    CompareCases(mode, ListNode("synonyms", kids), o);
    LeftHolds(mode, kids, o);
    MeanOfLeft(mode, kids, o);
    if o.TextNode? {
      CompareCases(mode, o, ListNode("synonyms", kids));
      CompareCases(mode, o, ListNode("link_|", kids));
      RightHolds(mode, o, kids);
      MeanOfRight(mode, o, kids);
    }
  }

  /** Words are scored one by one. */
  lemma {:induction false} WordsAddUp(mode: Mode, a: seq<string>, b: seq<string>, others: seq<string>)
    ensures WordsScore(mode, a + b, others) == WordsScore(mode, a, others) + WordsScore(mode, b, others)
    decreases |a|
  {
    hide WordScore;
    if a == [] {
      assert a + b == b;
    } else {
      WordsAddUp(mode, a[1..], b, others);
      assert (a + b)[1..] == a[1..] + b && (a + b)[0] == a[0];
    }
  }

  /** What the first word equal to `w`, the `k`-th of `n`, makes it count: `&&` counts 1, `&` three
      quarters and a bit of the weight of its tag, the more the fewer words there are. */
  lemma {:induction false} FirstMatchCounts(mode: Mode, w: string, words: seq<string>, k: nat, n: nat)
    requires k < |words| <= n && SameWord(w, words[k]) && forall i :: 0 <= i < k ==> !SameWord(w, words[i])
    ensures mode.Count? ==> WordScore(mode, w, words, n) == 1.0
    ensures mode.Weigh? ==>
      var (l, r) := (mode.tags.left, mode.tags.right);
      var weight := if w in l then TagWeight(l[w]) else if words[k] in r then TagWeight(r[words[k]]) else 0.75;
      WordScore(mode, w, words, n) == weight * (3.0 * n as real + 1.0) / 4.0 / n as real
    decreases k
  {
    hide SameWord;
    if k > 0 {
      assert words[1..][k - 1] == words[k];
      FirstMatchCounts(mode, w, words[1..], k - 1, n);
    }
  }

  /** Nouns count most, articles least. */
  lemma TagWeights(tag: string)
    ensures TagWeight("n") == 1.0 && TagWeight("v") == 0.75 && TagWeight("adj") == 0.5 && TagWeight("art") == 0.1
    ensures tag !in {"n", "v", "adj", "art"} ==> TagWeight(tag) == 0.4
  {
  }

  /** A defined score is at most (words in o1) * (text leaves of o2). */
  lemma {:induction false} CompareBounded(mode: Mode, o1: Xml, o2: Xml)
    ensures Compare(mode, o1, o2).Val? ==>
              0.0 <= Compare(mode, o1, o2).value <= (|LeafWords(o1)| * LeafCount(o2)) as real
    decreases o1, o2, 1
  {
    hide WordsScore, Finish, TextWords;
    CompareCases(mode, o1, o2);
    if o1.ListNode? {
      LeftBounded(mode, o1.content, o2);
      var g := GatherLeft(mode, o1.content, o2);
      FinishPositive(o1.name, g.0, g.1, |o1.content|, true);
    } else if o2.ListNode? {
      RightBounded(mode, o1, o2.content);
      var g := GatherRight(mode, o1, o2.content);
      FinishPositive(o2.name, g.0, g.1, |o2.content|, mode.Weigh?);
    }
  }

  lemma {:induction false} LeftBounded(mode: Mode, kids: seq<Xml>, o2: Xml)
    ensures GatherLeft(mode, kids, o2).0 <= (|AllLeafWords(kids)| * LeafCount(o2)) as real
    decreases kids, o2, 0
  {
    hide Compare, LeafWords, LeafCount;
    if kids != [] {
      CompareBounded(mode, kids[0], o2);
      LeftBounded(mode, kids[1..], o2);
      Distribute(|LeafWords(kids[0])|, |AllLeafWords(kids[1..])|, LeafCount(o2));
    }
  }

  lemma {:induction false} RightBounded(mode: Mode, o1: Xml, kids: seq<Xml>)
    ensures GatherRight(mode, o1, kids).0 <= (|LeafWords(o1)| * AllLeafCount(kids)) as real
    decreases o1, kids, 0
  {
    hide Compare, LeafWords, LeafCount;
    if kids != [] {
      CompareBounded(mode, o1, kids[0]);
      RightBounded(mode, o1, kids[1..]);
      Distribute(LeafCount(kids[0]), AllLeafCount(kids[1..]), |LeafWords(o1)|);
    }
  }

  lemma Distribute(a: nat, b: nat, c: nat)
    ensures ((a + b) * c) as real == (a * c) as real + (b * c) as real
    ensures (c * (a + b)) as real == (c * a) as real + (c * b) as real
    ensures (a * c) as real >= 0.0 && (c * a) as real >= 0.0
  {
  }
}
