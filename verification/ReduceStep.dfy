/** The bookkeeping of `reduce_step`: what its variables say about the matching rules of
    an order that were looked at so far. The longest body wins; a longer one throws the
    rewrites collected before away, an equally long one adds its own. */
module ReduceSteps {
  import opened Text
  import opened Entities
  import opened Reduction
  import opened ReduceMaps

  lemma ReplacedCases(vec: seq<Entity>, find: seq<Entity>, target: Entity)
    ensures var i := FirstCompatible(vec, find, 0);
            Replaced(vec, find, target) ==
            if find == [] || i == |vec| then vec else ReplaceAt(vec, find, i, target)
  {
  }

  lemma FirstKeyDiffers(vec: seq<Entity>, find: seq<Entity>, i: nat)
    requires i < |vec| && find != [] && ToKey(vec[i]) != ToKey(find[0])
    ensures !CompatibleAt(vec, find, i)
  {
    assert vec[i + 0] == vec[i];
  }

  lemma Spliced(vec: seq<Entity>, find: seq<Entity>, i: nat, target: Entity, node: Entity)
    requires i < |vec| && node == NewEntity(ToStr(target), Marked(vec, find, i))
    ensures i + Covered(vec, find, i) <= |vec|
    ensures vec[..i] + [node] + vec[i + Covered(vec, find, i)..] == ReplaceAt(vec, find, i, target)
  {
  }

  lemma PushedNext<X>(r: seq<X>, vec: seq<X>, i: nat)
    requires i < |vec|
    ensures r + [vec[i]] + vec[i + 1..] == r + vec[i..] && vec[..i] + [vec[i]] == vec[..i + 1]
  {
  }

  /** `reducelist::insert`: a printed form that is there already stays. */
  function Inserted(m: WordLists, words: seq<Entity>): WordLists {
    if AllToStr(words) in m then m else m[AllToStr(words) := words]
  }

  ghost predicate LongestSeen(seen: seq<ReduceRule>, words: seq<Entity>, t: string, best: nat) {
    (exists rule :: Eligible(seen, t, words, rule) && |rule.body| == best) &&
    forall rule :: Eligible(seen, t, words, rule) ==> |rule.body| <= best
  }

  /** What the variables of `reduce_step` say about the matching rules seen so far. */
  ghost predicate Progress(seen: seq<ReduceRule>, words: seq<Entity>, reduceTo: string,
                           lists: map<string, (nat, WordLists)>) {
    if seen == [] then reduceTo == "" && lists == map[]
    else
      && reduceTo != "" && reduceTo == ComplexityKey(seen[0].target) && lists.Keys == {reduceTo}
      && LongestSeen(seen, words, reduceTo, lists[reduceTo].0)
      && Describes(seen, reduceTo, words, lists[reduceTo].1)
  }

  lemma UsableRules(red: ReduceMap, order: nat, key: string, words: seq<Entity>)
    requires RedOk(red) && order < |red| && Occurs(key, AllGetKey(words))
    ensures forall r :: r in WithKeys(red[order], key) ==> Matches(r, words) && RuleOk(r)
  {
    forall r | r in WithKeys(red[order], key) ensures Matches(r, words) && RuleOk(r) {
      assert InRed(red, r);
    }
  }

  lemma EmptyProgress(words: seq<Entity>)
    ensures Progress([], words, "", map[])
  {
  }

  /** The matching rules under the first `i` keys have been seen, a longest one first. */
  ghost predicate SeenUpTo(entries: seq<ReduceRule>, words: seq<Entity>, keys: seq<string>, i: int,
                           seen: seq<ReduceRule>) {
    && 0 <= i <= |keys|
    && (forall r :: r in seen <==> r in entries && Matches(r, words) && r.keys in keys[..i])
    && (forall r :: r in seen ==> |r.keys| <= |seen[0].keys|)
  }

  lemma SeenOneMore(entries: seq<ReduceRule>, words: seq<Entity>, keys: seq<string>, i: nat,
                    seen: seq<ReduceRule>, seen': seq<ReduceRule>)
    requires SeenUpTo(entries, words, keys, i, seen) && i < |keys| && LongestFirst(keys)
    requires seen' == seen + if Occurs(keys[i], AllGetKey(words)) then WithKeys(entries, keys[i]) else []
    ensures SeenUpTo(entries, words, keys, i + 1, seen')
  {
  }

  lemma AllSeen(entries: seq<ReduceRule>, words: seq<Entity>, keys: seq<string>, seen: seq<ReduceRule>)
    requires SeenUpTo(entries, words, keys, |keys|, seen) && KeysOfEntries(entries, keys)
    ensures forall r :: r in seen <==> r in entries && Matches(r, words)
    ensures forall r :: r in seen ==> |r.keys| <= |seen[0].keys|
  {
    hide Matches;
    assert keys[..|keys|] == keys;
  }

  lemma EligibleGrows(seen: seq<ReduceRule>, t: string, words: seq<Entity>, rule: ReduceRule)
    requires Matches(rule, words)
    ensures forall r :: Eligible(seen + [rule], t, words, r) <==>
              Eligible(seen, t, words, r) || (r == rule && ComplexityKey(rule.target) == t)
  {
    assert forall r :: r in seen + [rule] <==> r in seen || r == rule;
  }

  lemma WrongTarget(seen: seq<ReduceRule>, words: seq<Entity>, reduceTo: string,
                    lists: map<string, (nat, WordLists)>, rule: ReduceRule)
    requires Progress(seen, words, reduceTo, lists) && seen != [] && Matches(rule, words)
    requires ComplexityKey(rule.target) != reduceTo
    ensures Progress(seen + [rule], words, reduceTo, lists)
  {
    SameBest(seen, reduceTo, words, rule);
  }

  lemma TooShort(seen: seq<ReduceRule>, words: seq<Entity>, reduceTo: string,
                 lists: map<string, (nat, WordLists)>, rule: ReduceRule)
    requires Progress(seen, words, reduceTo, lists) && seen != [] && Matches(rule, words)
    requires reduceTo in lists && |rule.body| < lists[reduceTo].0
    ensures Progress(seen + [rule], words, reduceTo, lists)
  {
    SameBest(seen, reduceTo, words, rule);
  }

  lemma ProgressShape(seen: seq<ReduceRule>, words: seq<Entity>, reduceTo: string,
                      lists: map<string, (nat, WordLists)>)
    requires Progress(seen, words, reduceTo, lists)
    ensures seen == [] <==> reduceTo == ""
    ensures lists.Keys == if reduceTo == "" then {} else {reduceTo}
  {
  }

  lemma ProgressParts(seen: seq<ReduceRule>, words: seq<Entity>, reduceTo: string,
                      lists: map<string, (nat, WordLists)>)
    requires Progress(seen, words, reduceTo, lists)
    ensures seen == [] <==> reduceTo == ""
    ensures seen != [] ==>
      reduceTo == ComplexityKey(seen[0].target) && reduceTo in lists &&
      LongestSeen(seen, words, reduceTo, lists[reduceTo].0) && Describes(seen, reduceTo, words, lists[reduceTo].1)
  {
  }

  lemma ProgressFrom(seen: seq<ReduceRule>, words: seq<Entity>, t: string, n: nat, m: WordLists)
    requires seen != [] && t == ComplexityKey(seen[0].target)
    requires LongestSeen(seen, words, t, n) && Describes(seen, t, words, m)
    ensures Progress(seen, words, t, map[t := (n, m)])
  {
  }

  lemma NothingEligible(t: string, words: seq<Entity>)
    ensures forall r :: !Eligible([], t, words, r)
  {
  }

  lemma AtMostLongest(seen: seq<ReduceRule>, words: seq<Entity>, t: string, n: nat)
    requires LongestSeen(seen, words, t, n)
    ensures forall r :: Eligible(seen, t, words, r) ==> |r.body| <= n
  {
  }

  lemma NonemptyBody(rule: ReduceRule)
    requires RuleOk(rule)
    ensures |rule.body| > 0
  {
  }

  lemma ExtendedIs(m: WordLists, t: string, words: seq<Entity>, rule: ReduceRule, newWords: seq<Entity>)
    requires newWords == Replaced(words, rule.body, rule.target)
    ensures Extended(m, t, words, rule) ==
      if Occurs("*", t) then Inserted(Inserted(m, newWords), words) else Inserted(m, newWords)
  {
  }

  /** A rule for the chosen target, or the first rule, whose body beats the others. */
  lemma LongerAccepted(seen: seq<ReduceRule>, words: seq<Entity>, reduceTo: string,
                       lists: map<string, (nat, WordLists)>, rule: ReduceRule)
    requires Progress(seen, words, reduceTo, lists) && Matches(rule, words)
    requires reduceTo == "" || ComplexityKey(rule.target) == reduceTo
    requires reduceTo in lists ==> lists[reduceTo].0 < |rule.body|
    ensures var t := ComplexityKey(rule.target);
            Progress(seen + [rule], words, t, map[t := (|rule.body|, Extended(map[], t, words, rule))])
  {
    hide Extended, Matches, ComplexityKey, Describes, Progress, LongestSeen;
    var t := ComplexityKey(rule.target);
    ProgressParts(seen, words, reduceTo, lists);
    if seen == [] { NothingEligible(t, words); } else { AtMostLongest(seen, words, t, lists[t].0); }
    LongerRule(seen, t, words, rule);
    assert (seen + [rule])[0] == if seen == [] then rule else seen[0];
    ProgressFrom(seen + [rule], words, t, |rule.body|, Extended(map[], t, words, rule));
  }

  /** A rule for the chosen target whose body is as long as the longest so far. */
  lemma EqualAccepted(seen: seq<ReduceRule>, words: seq<Entity>, reduceTo: string,
                      lists: map<string, (nat, WordLists)>, rule: ReduceRule)
    requires Progress(seen, words, reduceTo, lists) && Matches(rule, words)
    requires ComplexityKey(rule.target) == reduceTo && reduceTo in lists && lists[reduceTo].0 == |rule.body|
    ensures Progress(seen + [rule], words, reduceTo,
              map[reduceTo := (|rule.body|, Extended(lists[reduceTo].1, reduceTo, words, rule))])
  {
    hide Extended, Matches, ComplexityKey, Describes, Progress, LongestSeen;
    ProgressParts(seen, words, reduceTo, lists);
    EqualRule(seen, reduceTo, words, rule, lists[reduceTo].1);
    assert (seen + [rule])[0] == seen[0];
    ProgressFrom(seen + [rule], words, reduceTo, |rule.body|, Extended(lists[reduceTo].1, reduceTo, words, rule));
  }

  /** A rule for another target, or with a shorter body, changes nothing. */
  lemma SameBest(seen: seq<ReduceRule>, t: string, words: seq<Entity>, rule: ReduceRule)
    requires Matches(rule, words)
    requires ComplexityKey(rule.target) == t ==>
               exists r :: Eligible(seen, t, words, r) && |r.body| > |rule.body|
    ensures forall r :: Best(seen + [rule], t, words, r) <==> Best(seen, t, words, r)
    ensures forall next :: Candidate(seen + [rule], t, words, next) <==> Candidate(seen, t, words, next)
    ensures forall b :: LongestSeen(seen, words, t, b) ==> LongestSeen(seen + [rule], words, t, b)
  {
    EligibleGrows(seen, t, words, rule);
    hide Eligible;
    forall r ensures Best(seen + [rule], t, words, r) <==> Best(seen, t, words, r) {}
    hide Best;
  }

  /** The list of rewrites with one more rule's rewrite in it. */
  function Extended(m: WordLists, t: string, words: seq<Entity>, rule: ReduceRule): WordLists {
    var list := Inserted(m, Replaced(words, rule.body, rule.target));
    if Occurs("*", t) then Inserted(list, words) else list
  }

  ghost predicate HoldsCandidates(rules: seq<ReduceRule>, t: string, words: seq<Entity>, m: WordLists) {
    forall p :: p in m ==> Candidate(rules, t, words, m[p]) && AllToStr(m[p]) == p
  }

  lemma InsertedHolds(rules: seq<ReduceRule>, t: string, words: seq<Entity>, m: WordLists, next: seq<Entity>)
    requires HoldsCandidates(rules, t, words, m) && Candidate(rules, t, words, next)
    ensures HoldsCandidates(rules, t, words, Inserted(m, next))
    ensures AllToStr(next) in Inserted(m, next) && forall p :: p in m ==> p in Inserted(m, next)
  {
    hide Candidate, AllToStr;
  }

  /** The extended list describes the candidates when the old one held some of them and
      the rest are the rule's rewrite and, for a "*" target, the unchanged list. */
  lemma ExtendedDescribes(rules: seq<ReduceRule>, t: string, words: seq<Entity>, m: WordLists, rule: ReduceRule)
    requires HoldsCandidates(rules, t, words, m)
    requires Candidate(rules, t, words, Replaced(words, rule.body, rule.target))
    requires forall next :: Candidate(rules, t, words, next) ==>
               AllToStr(next) in m || next == Replaced(words, rule.body, rule.target) ||
               (Occurs("*", t) && next == words)
    ensures Describes(rules, t, words, Extended(m, t, words, rule))
  {
    var next := Replaced(words, rule.body, rule.target);
    assert Occurs("*", t) ==> Candidate(rules, t, words, words);
    hide Candidate, Replaced, AllToStr, Occurs, HoldsCandidates, Inserted;
    InsertedHolds(rules, t, words, m, next);
    if Occurs("*", t) { InsertedHolds(rules, t, words, Inserted(m, next), words); }
    assert HoldsCandidates(rules, t, words, Extended(m, t, words, rule));
    HeldAreDescribed(rules, t, words, Extended(m, t, words, rule));
  }

  lemma HeldAreDescribed(rules: seq<ReduceRule>, t: string, words: seq<Entity>, m: WordLists)
    requires HoldsCandidates(rules, t, words, m)
    requires forall next :: Candidate(rules, t, words, next) ==> AllToStr(next) in m
    ensures Describes(rules, t, words, m)
  {
  }

  /** A longer body discards what was there. */
  lemma LongerRule(seen: seq<ReduceRule>, t: string, words: seq<Entity>, rule: ReduceRule)
    requires Matches(rule, words) && ComplexityKey(rule.target) == t
    requires forall r :: Eligible(seen, t, words, r) ==> |r.body| < |rule.body|
    ensures LongestSeen(seen + [rule], words, t, |rule.body|)
    ensures Describes(seen + [rule], t, words, Extended(map[], t, words, rule))
  {
    EligibleGrows(seen, t, words, rule);
    var seen' := seen + [rule];
    hide Eligible, Replaced, AllToStr, Matches, ComplexityKey, Occurs, Extended, Describes;
    OnlyBest(seen', t, words, rule);
    ExtendedDescribes(seen', t, words, map[], rule);
  }

  lemma OnlyBest(rules: seq<ReduceRule>, t: string, words: seq<Entity>, rule: ReduceRule)
    requires Eligible(rules, t, words, rule)
    requires forall r :: Eligible(rules, t, words, r) && r != rule ==> |r.body| < |rule.body|
    ensures Candidate(rules, t, words, Replaced(words, rule.body, rule.target))
    ensures forall next :: Candidate(rules, t, words, next) ==>
              next == Replaced(words, rule.body, rule.target) || (Occurs("*", t) && next == words)
  {
    hide Eligible, Replaced, Occurs;
    assert forall r :: Best(rules, t, words, r) <==> r == rule;
  }

  /** An equally long body adds its rewrite. */
  lemma EqualRule(seen: seq<ReduceRule>, t: string, words: seq<Entity>, rule: ReduceRule, m: WordLists)
    requires Matches(rule, words) && ComplexityKey(rule.target) == t
    requires LongestSeen(seen, words, t, |rule.body|) && Describes(seen, t, words, m)
    ensures LongestSeen(seen + [rule], words, t, |rule.body|)
    ensures Describes(seen + [rule], t, words, Extended(m, t, words, rule))
  {
    EligibleGrows(seen, t, words, rule);
    var seen' := seen + [rule];
    hide Eligible, Replaced, AllToStr, Matches, ComplexityKey, Occurs, Extended;
    OneMoreBest(seen, seen', t, words, rule);
    hide Candidate;
    ExtendedDescribes(seen', t, words, m, rule);
  }

  lemma OneMoreBest(seen: seq<ReduceRule>, seen': seq<ReduceRule>, t: string, words: seq<Entity>, rule: ReduceRule)
    requires LongestSeen(seen, words, t, |rule.body|)
    requires forall r :: Eligible(seen', t, words, r) <==> Eligible(seen, t, words, r) || r == rule
    ensures Candidate(seen', t, words, Replaced(words, rule.body, rule.target))
    ensures forall next :: Candidate(seen', t, words, next) <==>
              Candidate(seen, t, words, next) || next == Replaced(words, rule.body, rule.target)
  {
    hide Eligible, Replaced, Occurs;
    assert forall r :: Best(seen', t, words, r) <==> Best(seen, t, words, r) || r == rule;
    hide Best;
  }

  lemma SameRules(a: seq<ReduceRule>, b: seq<ReduceRule>, t: string, words: seq<Entity>, m: WordLists)
    requires forall r :: r in a <==> r in b && Matches(r, words)
    requires Describes(a, t, words, m)
    ensures Describes(b, t, words, m)
  {
    assert forall r :: Eligible(a, t, words, r) <==> Eligible(b, t, words, r);
    hide Eligible, Replaced, AllToStr;
    assert forall r :: Best(a, t, words, r) <==> Best(b, t, words, r);
    hide Best;
    assert forall next :: Candidate(a, t, words, next) <==> Candidate(b, t, words, next);
  }

  lemma OrderResult(red: ReduceMap, words: seq<Entity>, order: nat, reduceTo: string,
                    lists: map<string, (nat, WordLists)>, seen: seq<ReduceRule>)
    requires order < |red| && forall k :: 0 <= k < order ==> !HasMatch(red[k], words)
    requires reduceTo != "" && Progress(seen, words, reduceTo, lists)
    requires forall r :: r in seen <==> r in red[order] && Matches(r, words)
    requires forall r :: r in seen ==> |r.keys| <= |seen[0].keys|
    ensures reduceTo in lists && StepResult(red, words, lists[reduceTo].1)
  {
    SameRules(seen, red[order], reduceTo, words, lists[reduceTo].1);
    assert seen[0] in seen;
    assert Eligible(red[order], reduceTo, words, seen[0]);
    assert LowestOrder(red, words, order);
  }

  lemma NothingSeen(red: ReduceMap, words: seq<Entity>, order: nat,
                    lists: map<string, (nat, WordLists)>, seen: seq<ReduceRule>)
    requires order < |red| && Progress(seen, words, "", lists)
    requires forall r :: r in seen <==> r in red[order] && Matches(r, words)
    ensures !HasMatch(red[order], words)
  {
  }
}
