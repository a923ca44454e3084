/** Which rules a round applies together: those whose targets are printed alike, or alike from
    the first "$" on. */
module ReduceTargets {
  import opened Text
  import opened Matching
  import opened Entities
  import opened Reduction

  predicate NoDollar(s: string) { '$' !in s }

  /** The two targets are printed alike, or alike behind their first "$". */
  ghost predicate SameTarget(a: Entity, b: Entity) {
    || Print(a) == Print(b)
    || exists p, q, s :: NoDollar(p) && NoDollar(q) && Print(a) == p + "$" + s && Print(b) == q + "$" + s
  }

  /** The part of the printed target that is compared has a "*". */
  ghost predicate StarTarget(a: Entity) {
    || (NoDollar(Print(a)) && '*' in Print(a))
    || exists p, s :: NoDollar(p) && Print(a) == p + "$" + s && '*' in s
  }

  lemma {:induction false} CutAtDollar(p: string, s: string)
    requires NoDollar(p)
    ensures FromChar(p + "$" + s, '$') == "$" + s
    decreases |p|
  {
    var all := p + "$" + s;
    if p == "" {
      assert all == "$" + s && all[0] == '$';
    } else {
      assert all[0] == p[0] && p[0] in p;
      CutAtDollar(p[1..], s);
      assert all[1..] == p[1..] + "$" + s;
    }
  }

  lemma {:induction false} FirstDollar(t: string) returns (p: string, s: string)
    requires '$' in t
    ensures NoDollar(p) && t == p + "$" + s
  {
    if t[0] == '$' {
      p, s := "", t[1..];
      assert t == "" + "$" + s;
    } else {
      p, s := FirstDollar(t[1..]);
      assert t == [t[0]] + t[1..] == ([t[0]] + p) + "$" + s;
      p := [t[0]] + p;
    }
  }

  lemma KeyWithDollar(a: Entity, p: string, s: string)
    requires NoDollar(p) && Print(a) == p + "$" + s
    ensures ComplexityKey(a) == "{$" + s + "}"
  {
    hide Print, FromChar;
    var printed := "{" + Print(a) + "}";
    assert printed == ("{" + p) + "$" + (s + "}");
    assert printed[|"{" + p|] == '$';
    OccursChar('$', printed);
    assert ['$'] == "$" && NoDollar("{" + p);
    CutAtDollar("{" + p, s + "}");
    assert "{" + ("$" + (s + "}")) == "{$" + s + "}";
  }

  lemma KeyWithout(a: Entity)
    requires NoDollar(Print(a))
    ensures ComplexityKey(a) == "{" + Print(a) + "}"
  {
    hide Print, FromChar;
    OccursChar('$', "{" + Print(a) + "}");
    assert ['$'] == "$";
  }

  lemma Unbraced(s: string, t: string)
    ensures "{$" + s + "}" == "{$" + t + "}" <==> s == t
    ensures "{" + s + "}" == "{" + t + "}" <==> s == t
    ensures NoDollar(t) ==> "{$" + s + "}" != "{" + t + "}"
  {
    var x, y := "{$" + s + "}", "{$" + t + "}";
    if x == y { assert s == x[2..|x| - 1] == y[2..|y| - 1] == t; }
    var v, w := "{" + s + "}", "{" + t + "}";
    if v == w { assert s == v[1..|v| - 1] == w[1..|w| - 1] == t; }
    if NoDollar(t) {
      assert t != "" ==> t[0] in t;
      assert x[1] == '$' && w[1] != '$';
    }
  }

  lemma SameSplit(p: string, s: string, q: string, t: string)
    requires NoDollar(p) && NoDollar(q) && p + "$" + s == q + "$" + t
    ensures s == t
  {
    CutAtDollar(p, s);
    CutAtDollar(q, t);
    assert ("$" + s)[1..] == s && ("$" + t)[1..] == t;
  }

  /** Targets are told apart by what stands in them from the first "$" on, or by all of it. */
  lemma SameKeyIff(a: Entity, b: Entity)
    ensures ComplexityKey(a) == ComplexityKey(b) <==> SameTarget(a, b)
  {
    hide Print, ComplexityKey, NoDollar;
    if NoDollar(Print(a)) && NoDollar(Print(b)) {
      KeyWithout(a);
      KeyWithout(b);
      Unbraced(Print(a), Print(b));
      SplitHasDollar(Print(a));
    } else if NoDollar(Print(a)) {
      var q, t := SplitPrint(b);
      KeyWithout(a);
      KeyWithDollar(b, q, t);
      Unbraced(t, Print(a));
      SplitHasDollar(Print(a));
    } else {
      var p, s := SplitPrint(a);
      KeyWithDollar(a, p, s);
      if NoDollar(Print(b)) {
        KeyWithout(b);
        Unbraced(s, Print(b));
        SplitHasDollar(Print(b));
      } else {
        var q, t := SplitPrint(b);
        KeyWithDollar(b, q, t);
        Unbraced(s, t);
        SameDollar(a, b, p, s, q, t);
      }
    }
  }

  lemma SplitHasDollar(t: string)
    ensures NoDollar(t) ==> !exists p, s :: t == p + "$" + s
  {
    forall p, s | t == p + "$" + s ensures !NoDollar(t) {
      assert t[|p|] == '$';
    }
  }

  lemma SplitPrint(a: Entity) returns (p: string, s: string)
    requires !NoDollar(Print(a))
    ensures NoDollar(p) && Print(a) == p + "$" + s
  {
    p, s := FirstDollar(Print(a));
  }

  lemma SameDollar(a: Entity, b: Entity, p: string, s: string, q: string, t: string)
    requires NoDollar(p) && Print(a) == p + "$" + s && NoDollar(q) && Print(b) == q + "$" + t
    ensures SameTarget(a, b) <==> s == t
  {
    hide Print;
    if Print(a) == Print(b) { SameSplit(p, s, q, t); }
    forall p', q', s' | NoDollar(p') && NoDollar(q') && Print(a) == p' + "$" + s' && Print(b) == q' + "$" + s'
      ensures s == t {
      SameSplit(p, s, p', s');
      SameSplit(q, t, q', s');
    }
  }

  lemma StarIff(a: Entity)
    ensures Occurs("*", ComplexityKey(a)) <==> StarTarget(a)
  {
    hide Print, ComplexityKey, NoDollar;
    OccursChar('*', ComplexityKey(a));
    assert ['*'] == "*";
    SplitHasDollar(Print(a));
    if NoDollar(Print(a)) {
      KeyWithout(a);
    } else {
      var p, s := SplitPrint(a);
      KeyWithDollar(a, p, s);
      forall p', s' | NoDollar(p') && Print(a) == p' + "$" + s' ensures s' == s {
        SameSplit(p, s, p', s');
      }
    }
  }

  // ---- what a round applies ----------------------------------------------------------------

  /** A matching rule for the target of the chosen one, with the longest body of all of them. */
  ghost predicate Applied(rules: seq<ReduceRule>, words: seq<Entity>, chosen: ReduceRule, rule: ReduceRule) {
    && rule in rules && Matches(rule, words) && SameTarget(rule.target, chosen.target)
    && forall other :: other in rules && Matches(other, words) && SameTarget(other.target, chosen.target) ==>
         |other.body| <= |rule.body|
  }

  /** Among the matching rules of the lowest order that has any, one with the longest key string
      is chosen; the result is, for each printed form, the rewrite by one of the applied rules,
      and the unchanged list where the target has a "*". */
  ghost predicate StepBy(red: ReduceMap, words: seq<Entity>, m: WordLists, o: int, chosen: ReduceRule) {
    && 0 <= o < |red| && (forall k, rule :: 0 <= k < o && rule in red[k] ==> !Matches(rule, words))
    && chosen in red[o] && Matches(chosen, words)
    && (forall rule :: rule in red[o] && Matches(rule, words) ==> |rule.keys| <= |chosen.keys|)
    && (forall rule :: Applied(red[o], words, chosen, rule) ==> AllToStr(Replaced(words, rule.body, rule.target)) in m)
    && (StarTarget(chosen.target) ==> AllToStr(words) in m)
    && (forall p :: p in m ==>
          AllToStr(m[p]) == p &&
          ((exists rule :: Applied(red[o], words, chosen, rule) && m[p] == Replaced(words, rule.body, rule.target)) ||
           (StarTarget(chosen.target) && m[p] == words)))
  }

  /** What a round returns, said of printed targets. */
  ghost predicate StepApplies(red: ReduceMap, words: seq<Entity>, m: WordLists) {
    if exists rule :: InRed(red, rule) && Matches(rule, words)
    then exists o, chosen :: StepBy(red, words, m, o, chosen)
    else m == map[]
  }

  lemma BestIsApplied(rules: seq<ReduceRule>, words: seq<Entity>, chosen: ReduceRule, rule: ReduceRule)
    ensures Best(rules, ComplexityKey(chosen.target), words, rule) <==> Applied(rules, words, chosen, rule)
  {
    hide ComplexityKey, SameTarget, Matches;
    forall r: ReduceRule
      ensures ComplexityKey(r.target) == ComplexityKey(chosen.target) <==> SameTarget(r.target, chosen.target) {
      SameKeyIff(r.target, chosen.target);
    }
  }

  lemma CandidateIs(rules: seq<ReduceRule>, words: seq<Entity>, chosen: ReduceRule, next: seq<Entity>)
    ensures Candidate(rules, ComplexityKey(chosen.target), words, next) <==>
              (exists rule :: Applied(rules, words, chosen, rule) && next == Replaced(words, rule.body, rule.target)) ||
              (StarTarget(chosen.target) && next == words)
  {
    hide ComplexityKey, SameTarget, StarTarget, Replaced, Best, Applied, Occurs;
    StarIff(chosen.target);
    forall rule
      ensures Best(rules, ComplexityKey(chosen.target), words, rule) <==> Applied(rules, words, chosen, rule) {
      BestIsApplied(rules, words, chosen, rule);
    }
  }

  /** Whatever `reduce_step` returns is so. */
  lemma ResultApplies(red: ReduceMap, words: seq<Entity>, m: WordLists)
    requires StepResult(red, words, m)
    ensures StepApplies(red, words, m)
  {
    hide ComplexityKey, SameTarget, StarTarget, Replaced, Matches, AllToStr, Candidate, Applied, Best;
    EmptyIffNoMatch(red, words, m);
    if rule :| InRed(red, rule) && Matches(rule, words) {
      assert m != map[];
      var o, t :| LowestOrder(red, words, o) && ChosenTarget(red[o], words, t) && Describes(red[o], t, words, m);
      var chosen :| Eligible(red[o], t, words, chosen) &&
        forall other :: other in red[o] && Matches(other, words) ==> |other.keys| <= |chosen.keys|;
      LowestMeans(red, words, o);
      ChosenStep(red, words, m, o, chosen);
    }
  }

  lemma LowestMeans(red: ReduceMap, words: seq<Entity>, o: int)
    requires LowestOrder(red, words, o)
    ensures forall k, rule :: 0 <= k < o && rule in red[k] ==> !Matches(rule, words)
  {
    hide Matches;
    forall k, rule | 0 <= k < o && rule in red[k] ensures !Matches(rule, words) {
      assert !HasMatch(red[k], words);
    }
  }

  lemma ChosenStep(red: ReduceMap, words: seq<Entity>, m: WordLists, o: int, chosen: ReduceRule)
    requires 0 <= o < |red| && forall k, rule :: 0 <= k < o && rule in red[k] ==> !Matches(rule, words)
    requires chosen in red[o] && Matches(chosen, words)
    requires forall rule :: rule in red[o] && Matches(rule, words) ==> |rule.keys| <= |chosen.keys|
    requires Describes(red[o], ComplexityKey(chosen.target), words, m)
    ensures StepBy(red, words, m, o, chosen)
  {
    hide ComplexityKey, SameTarget, StarTarget, Replaced, Matches, AllToStr, Candidate, Applied, Best;
    var t := ComplexityKey(chosen.target);
    forall rule | Applied(red[o], words, chosen, rule)
      ensures AllToStr(Replaced(words, rule.body, rule.target)) in m {
      CandidateIs(red[o], words, chosen, Replaced(words, rule.body, rule.target));
      assert Candidate(red[o], t, words, Replaced(words, rule.body, rule.target));
    }
    if StarTarget(chosen.target) {
      CandidateIs(red[o], words, chosen, words);
      assert Candidate(red[o], t, words, words);
    }
    forall p | p in m
      ensures AllToStr(m[p]) == p
      ensures
        (exists rule :: Applied(red[o], words, chosen, rule) && m[p] == Replaced(words, rule.body, rule.target)) ||
        (StarTarget(chosen.target) && m[p] == words) {
      CandidateIs(red[o], words, chosen, m[p]);
    }
  }

  /** Two matching rules with equally long and longest bodies, printed with the same end from "$"
      on: with the one chosen, the rewrites by both are returned. */
  lemma BothAreApplied(red: ReduceMap, words: seq<Entity>, m: WordLists, o: int, a: ReduceRule, b: ReduceRule,
                       p: string, q: string, s: string)
    requires StepBy(red, words, m, o, a) && b in red[o] && Matches(b, words) && |a.body| == |b.body|
    requires forall rule :: rule in red[o] && Matches(rule, words) ==> |rule.body| <= |a.body|
    requires NoDollar(p) && NoDollar(q) && Print(a.target) == p + "$" + s && Print(b.target) == q + "$" + s
    ensures AllToStr(Replaced(words, a.body, a.target)) in m && AllToStr(Replaced(words, b.body, b.target)) in m
  {
    hide Replaced, Matches, AllToStr, Print, NoDollar;
    assert SameTarget(a.target, a.target) && SameTarget(b.target, a.target);
    assert Applied(red[o], words, a, a) && Applied(red[o], words, a, b);
  }

  lemma SameTargetJoins(a: Entity, b: Entity, c: Entity)
    requires SameTarget(a, c) && SameTarget(b, c)
    ensures SameTarget(a, b)
  {
    hide SameTarget, ComplexityKey;
    SameKeyIff(a, c);
    SameKeyIff(b, c);
    SameKeyIff(a, b);
  }

  /** Rules whose targets are printed differently, from "$" on or without one, are never applied
      together: any two lists returned are rewrites by rules for the same target. */
  lemma NeverBothApplied(red: ReduceMap, words: seq<Entity>, m: WordLists, o: int, chosen: ReduceRule,
                         p: string, q: string)
    requires StepBy(red, words, m, o, chosen) && p in m && q in m && m[p] != words && m[q] != words
    ensures exists a, b ::
              && a in red[o] && b in red[o] && Matches(a, words) && Matches(b, words) && SameTarget(a.target, b.target)
              && m[p] == Replaced(words, a.body, a.target) && m[q] == Replaced(words, b.body, b.target)
              && |a.body| == |b.body|
  {
    hide Replaced, Matches, AllToStr, SameTarget, StarTarget;
    var a :| Applied(red[o], words, chosen, a) && m[p] == Replaced(words, a.body, a.target);
    var b :| Applied(red[o], words, chosen, b) && m[q] == Replaced(words, b.body, b.target);
    SameTargetJoins(a.target, b.target, chosen.target);
  }
}
