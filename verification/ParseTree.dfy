/** How the trees of a run are put together from rules, and marked by them. */
module ParseTrees {
  import opened Text
  import opened Matching
  import opened Entities
  import opened Reduction

  /** What an element of a rule body marks the symbol with that it matches: its markers, or its
      own name if it has none. */
  function MarkersOf(b: Entity): seq<string> {
    if b.virt != [] then b.virt
    else if b.data != "" then [b.data]
    else if b.symbol != "" then [b.symbol]
    else []
  }

  /** A symbol takes over exactly these markers, behind its own, and nothing else. */
  lemma MatchedIsMarked(e: Entity, b: Entity)
    requires WellFormed(e) && WellFormed(b) && b.embed == [] && ToKey(e) == ToKey(b)
    ensures Mark(e, Marker(b)) == e.(virt := e.virt + MarkersOf(b))
  {
    hide ToKey;
    KeyInjective(e, b);
    if b.virt != [] {
      MarkParts(e, b.virt);
      AddVirts(e, b.virt);
    } else {
      MarkWithName(e, b);
      var e' := AddPart(e, NameOrNull(b));
      var parts := [NameOrNull(b)] + OrderParts(b.order);
      assert parts[0] == NameOrNull(b) && parts[1..] == OrderParts(b.order);
      NamePart(e, b);
      AddOrder(e', b.order);
    }
  }

  lemma NamePart(e: Entity, b: Entity)
    requires WellFormed(e) && WellFormed(b) && Primary(e) == Primary(b) && b.virt == []
    ensures AddPart(e, NameOrNull(b)) == e.(virt := e.virt + MarkersOf(b))
  {
    assert e.virt + [] == e.virt;
    assert "r-"[0] == 'r' && "s-"[0] == 's' && "d-"[0] == 'd';
    if Primary(b) != "" {
      assert PartOk(Primary(b));
      assert Primary(b)[0] == if b.data != "" then 'd' else if b.symbol != "" then 's' else 'r';
      assert StartsWith(Primary(b), "r-") <==> b.data == "" && b.symbol == "";
    }
  }

  /** `e`, without the markers `ms` at its end, is one of the words, or the target of a rule over
      elements that are built so and marked by the elements of the rule's body. */
  ghost predicate Built(red: ReduceMap, words: seq<Entity>, e: Entity, ms: seq<string>)
    decreases e
  {
    || (exists w :: w in words && w.embed == [] && e == w.(virt := w.virt + ms))
    || (exists rule :: InRed(red, rule) && IsNode(rule, e, ms) &&
          forall i :: 0 <= i < |e.embed| ==> Built(red, words, e.embed[i], MarkersOf(rule.body[i])))
  }

  ghost predicate IsNode(rule: ReduceRule, e: Entity, ms: seq<string>) {
    && e.embed != [] && |e.embed| == |rule.body| && Keys(e.embed) == Keys(rule.body)
    && e == rule.target.(virt := rule.target.virt + ms, text := "", embed := e.embed)
  }

  ghost predicate AllBuilt(red: ReduceMap, words: seq<Entity>, list: seq<Entity>) {
    forall e :: e in list ==> Built(red, words, e, [])
  }

  lemma WordsAreBuilt(red: ReduceMap, words: seq<Entity>)
    requires Unparsed(words)
    ensures AllBuilt(red, words, words)
  {
    forall w | w in words ensures Built(red, words, w, []) {
      assert w == w.(virt := w.virt + []) by { assert w.virt + [] == w.virt; }
    }
  }

  /** Marking at the top leaves the rest as it was built. */
  lemma BuiltMarked(red: ReduceMap, words: seq<Entity>, e: Entity, ms: seq<string>)
    requires Built(red, words, e, [])
    ensures Built(red, words, e.(virt := e.virt + ms), ms)
  {
    var m := e.(virt := e.virt + ms);
    if w :| w in words && w.embed == [] && e == w.(virt := w.virt + []) {
      assert w.virt + [] == w.virt;
      assert m == w.(virt := w.virt + ms);
    } else {
      var rule :| InRed(red, rule) && IsNode(rule, e, []) &&
        forall i :: 0 <= i < |e.embed| ==> Built(red, words, e.embed[i], MarkersOf(rule.body[i]));
      assert rule.target.virt + [] == rule.target.virt;
      assert IsNode(rule, m, ms);
    }
  }

  lemma NodeIsBuilt(red: ReduceMap, words: seq<Entity>, rule: ReduceRule, list: seq<Entity>, i: int)
    requires InRed(red, rule) && RuleOk(rule) && WordsOk(list) && AllBuilt(red, words, list)
    requires FullAt(list, rule.body, i)
    ensures Built(red, words, NewEntity(ToStr(rule.target), Marked(list, rule.body, i)), [])
  {
    hide Mark, Marker, NewEntity, ToStr, ToKey, WellFormed, Built, MarkersOf, Genuine, Leaves, AllLeaves;
    var m := Marked(list, rule.body, i);
    var node := NewEntity(ToStr(rule.target), m);
    TargetKey(rule.target, m);
    MarkedKeep(red, list, rule.body, i);
    forall f | 0 <= f < |m| ensures Built(red, words, m[f], MarkersOf(rule.body[f])) {
      assert list[i + f] in list && rule.body[f] in rule.body;
      assert ElementOk(list[i + f]) && ElementOk(rule.body[f]);
      MatchedIsMarked(list[i + f], rule.body[f]);
      BuiltMarked(red, words, list[i + f], MarkersOf(rule.body[f]));
    }
    assert rule.target.virt + [] == rule.target.virt;
    FromRule(red, words, rule, node);
  }

  lemma FromRule(red: ReduceMap, words: seq<Entity>, rule: ReduceRule, e: Entity)
    requires InRed(red, rule) && IsNode(rule, e, [])
    requires forall i :: 0 <= i < |e.embed| ==> Built(red, words, e.embed[i], MarkersOf(rule.body[i]))
    ensures Built(red, words, e, [])
  {
  }

  lemma RewriteIsBuilt(red: ReduceMap, words: seq<Entity>, rule: ReduceRule, list: seq<Entity>)
    requires InRed(red, rule) && RuleOk(rule) && WordsOk(list) && Matches(rule, list) && AllBuilt(red, words, list)
    ensures AllBuilt(red, words, Replaced(list, rule.body, rule.target))
  {
    hide Matches, Replaced, NewEntity, ToStr, Marked, Built, WordsOk, RuleOk, WellFormed, ToKey;
    MatchIsLeftmostOccurrence(rule, list);
    var i := FirstCompatible(list, rule.body, 0);
    NodeIsBuilt(red, words, rule, list, i);
    forall e | e in ReplaceAt(list, rule.body, i, rule.target) ensures Built(red, words, e, []) {
      if e != NewEntity(ToStr(rule.target), Marked(list, rule.body, i)) { assert e in list; }
    }
  }

  /** Every list reached in any run is built from the input. */
  lemma {:induction false} RunsAreBuilt(red: ReduceMap, words: seq<Entity>, k: nat, next: seq<Entity>)
    requires RedOk(red) && WordsOk(words) && Unparsed(words) && Reaches(red, words, k, next)
    ensures AllBuilt(red, words, next)
  {
    hide RoundLeadsTo, WordsOk, AllLeaves, AllGenuine, RuleOk, AllBuilt, Unparsed;
    if k == 0 {
      WordsAreBuilt(red, words);
    } else {
      var mid :| Reaches(red, words, k - 1, mid) && RoundLeadsTo(red, mid, next);
      RunsKeep(red, words, k - 1, mid);
      RunsAreBuilt(red, words, k - 1, mid);
      var rule := RoundRewrites(red, mid, next);
      RewriteIsBuilt(red, words, rule, mid);
    }
  }

  /** So is everything that `reduce` collects. */
  lemma FinishedIsBuilt(red: ReduceMap, words: seq<Entity>, rounds: seq<WordLists>, result: seq<Entity>)
    requires RedOk(red) && WordsOk(words) && Unparsed(words) && IsHistory(red, words, rounds)
    requires FinishedIn(rounds, result)
    ensures |result| == 1 && Built(red, words, result[0], [])
  {
    hide RedOk, WordsOk, Unparsed, IsHistory, Reaches, Built, ToKey;
    var k, p :| 1 <= k < |rounds| && p in rounds[k] && rounds[k][p] == result && Finished(result);
    HistoryReaches(red, words, rounds, k, p);
    RunsAreBuilt(red, words, k, result);
  }
}
