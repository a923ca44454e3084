/** Expansion of the grammar's own rules, whose symbols carry markers: what a round
    makes of each body, and why it is the round of module Cfg underneath. */
module Expansion {
  import opened Text
  import opened Entities
  import opened Cfg

  datatype GrammarRule = GrammarRule(key: string, body: seq<Entity>)

  type Rules = seq<GrammarRule>

  function SymOf(e: Entity): Sym {
    if TypeOf(e) == 'r' then R(ToKey(e)) else T(ToKey(e))
  }

  function SymsOf(body: seq<Entity>): (syms: seq<Sym>)
    ensures |syms| == |body|
  {
    seq(|body|, i requires 0 <= i < |body| => SymOf(body[i]))
  }

  function RuleOf(rule: GrammarRule): Rule {
    Rule(rule.key, SymsOf(rule.body))
  }

  function RulesOf(g: Rules): (rules: seq<Rule>)
    ensures |rules| == |g|
  {
    seq(|g|, i requires 0 <= i < |g| => RuleOf(g[i]))
  }

  /** The bodies `equal_range(key)` runs through. */
  function Bodies(g: Rules, key: string): seq<seq<Entity>> {
    if g == [] then []
    else if g[0].key == key then [g[0].body] + Bodies(g[1..], key)
    else Bodies(g[1..], key)
  }

  /** `insert_back`: the replacement's symbols, marked by the symbol they replace. */
  function Inherited(body: seq<Entity>, from: Entity): (r: seq<Entity>)
    ensures |r| == |body|
  {
    seq(|body|, i requires 0 <= i < |body| => Mark(body[i], Marker(from)))
  }

  function EntityPiece(g: Rules, e: Entity, split: bool, c: nat): seq<Entity>
    requires TypeOf(e) == 'r' && |Bodies(g, ToKey(e))| >= 2 && !split ==> c < |Bodies(g, ToKey(e))|
  {
    var bodies := Bodies(g, ToKey(e));
    if TypeOf(e) != 'r' then [e]
    else if |bodies| == 0 then []
    else if |bodies| == 1 then Inherited(bodies[0], e)
    else if split then [e]
    else Inherited(bodies[c], e)
  }

  /** The number of bodies `body` is expanded to. */
  function EntityWidth(g: Rules, body: seq<Entity>): (n: nat)
    ensures n >= 1
  {
    if body == [] then 1
    else if EntityWidth(g, Pre(body)) == 1 && TypeOf(Last(body)) == 'r' && |Bodies(g, ToKey(Last(body)))| >= 2
    then |Bodies(g, ToKey(Last(body)))|
    else EntityWidth(g, Pre(body))
  }

  /** The `c`-th of them. */
  function EntityVariant(g: Rules, body: seq<Entity>, c: nat): seq<Entity>
    requires c < EntityWidth(g, body)
  {
    if body == [] then []
    else
      var split := EntityWidth(g, Pre(body)) > 1;
      EntityVariant(g, Pre(body), if split then c else 0) + EntityPiece(g, Last(body), split, c)
  }

  predicate EntityDeferred(g: Rules, body: seq<Entity>) {
    body != [] &&
    (EntityDeferred(g, Pre(body)) ||
     (EntityWidth(g, Pre(body)) > 1 && TypeOf(Last(body)) == 'r' && |Bodies(g, ToKey(Last(body)))| >= 2))
  }

  function NewRules(g: Rules, rule: GrammarRule): (rs: Rules)
    ensures |rs| == EntityWidth(g, rule.body)
  {
    seq(EntityWidth(g, rule.body), c requires 0 <= c < EntityWidth(g, rule.body) =>
      GrammarRule(rule.key, EntityVariant(g, rule.body, c)))
  }

  function RoundFrom(g: Rules, rules: Rules): Rules {
    if rules == [] then [] else RoundFrom(g, Pre(rules)) + NewRules(g, Last(rules))
  }

  /** The rules after one round of `expand_step`. */
  function Round(g: Rules): Rules {
    RoundFrom(g, g)
  }

  // ---- well-formed rule bodies -------------------------------------------------

  /** A body element has a primary name; a replacement symbol with an order number has
      markers, so that the number is not handed on. */
  predicate SymbolOk(e: Entity) {
    WellFormed(e) && Primary(e) != "" && e.embed == [] && (TypeOf(e) == 'r' ==> e.order == -1 || e.virt != [])
  }

  predicate BodyOk(body: seq<Entity>) {
    forall e :: e in body ==> SymbolOk(e)
  }

  predicate RulesOk(g: Rules) {
    forall rule :: rule in g ==> BodyOk(rule.body)
  }

  lemma {:induction false} BodiesAreAlternatives(g: Rules, key: string)
    ensures |Bodies(g, key)| == |Alternatives(RulesOf(g), key)|
    ensures forall i :: 0 <= i < |Bodies(g, key)| ==>
              GrammarRule(key, Bodies(g, key)[i]) in g &&
              SymsOf(Bodies(g, key)[i]) == Alternatives(RulesOf(g), key)[i]
    decreases |g|
  {
    if g != [] {
      assert RulesOf(g)[1..] == RulesOf(g[1..]);
      BodiesAreAlternatives(g[1..], key);
      assert g == [g[0]] + g[1..];
      assert g[0] == GrammarRule(g[0].key, g[0].body);
    }
  }

  lemma InheritedSyms(body: seq<Entity>, from: Entity)
    requires BodyOk(body) && SymbolOk(from) && TypeOf(from) == 'r'
    ensures SymsOf(Inherited(body, from)) == SymsOf(body) && BodyOk(Inherited(body, from))
  {
    var r := Inherited(body, from);
    forall i | 0 <= i < |body|
      ensures SymOf(r[i]) == SymOf(body[i]) && SymbolOk(r[i])
    {
      assert body[i] in body;
      InheritedSymbol(body[i], from);
    }
  }

  lemma InheritedSymbol(e: Entity, from: Entity)
    requires SymbolOk(e) && SymbolOk(from) && TypeOf(from) == 'r'
    ensures SymOf(Mark(e, Marker(from))) == SymOf(e) && SymbolOk(Mark(e, Marker(from)))
  {
    InheritKeepsKey(e, from);
    NamedByType(e);
    NamedByType(Mark(e, Marker(from)));
  }

  lemma NamedByType(e: Entity)
    ensures Primary(e) != "" <==> TypeOf(e) == 'd' || TypeOf(e) == 's' || TypeOf(e) == 'r'
  {
  }

  lemma PieceSyms(g: Rules, e: Entity, split: bool, c: nat)
    requires RulesOk(g) && SymbolOk(e)
    requires Ambiguous(RulesOf(g), SymOf(e)) && !split ==> c < |Alternatives(RulesOf(g), ToKey(e))|
    ensures TypeOf(e) == 'r' && |Bodies(g, ToKey(e))| >= 2 <==> Ambiguous(RulesOf(g), SymOf(e))
    ensures |Bodies(g, ToKey(e))| == |Alternatives(RulesOf(g), ToKey(e))|
    ensures SymsOf(EntityPiece(g, e, split, c)) == Piece(RulesOf(g), SymOf(e), split, c)
    ensures BodyOk(EntityPiece(g, e, split, c))
  {
    BodiesAreAlternatives(g, ToKey(e));
    var bodies := Bodies(g, ToKey(e));
    hide Bodies, Alternatives, Mark, SymbolOk, Inherited;
    if TypeOf(e) == 'r' {
      forall i | 0 <= i < |bodies|
        ensures SymsOf(Inherited(bodies[i], e)) == SymsOf(bodies[i]) && BodyOk(Inherited(bodies[i], e))
      {
        assert GrammarRule(ToKey(e), bodies[i]) in g;
        InheritedSyms(bodies[i], e);
      }
    }
    assert SymsOf([e]) == [SymOf(e)];
  }

  lemma SymsConcat(a: seq<Entity>, b: seq<Entity>)
    ensures SymsOf(a + b) == SymsOf(a) + SymsOf(b)
  {
  }

  lemma PreLastSyms(body: seq<Entity>)
    requires body != []
    ensures SymsOf(body) != [] && Pre(SymsOf(body)) == SymsOf(Pre(body)) && Last(SymsOf(body)) == SymOf(Last(body))
    ensures Last(body) in body && forall e :: e in Pre(body) ==> e in body
  {
  }

  /** Underneath the markers, a body is expanded as in module Cfg. */
  lemma {:induction false} WidthAgrees(g: Rules, body: seq<Entity>)
    requires RulesOk(g) && BodyOk(body)
    ensures EntityWidth(g, body) == Width(RulesOf(g), SymsOf(body))
    ensures EntityDeferred(g, body) == Deferred(RulesOf(g), SymsOf(body))
    decreases |body|
  {
    if body != [] {
      PreLastSyms(body);
      WidthAgrees(g, Pre(body));
      PieceSyms(g, Last(body), true, 0);
    }
  }

  lemma {:induction false} VariantAgrees(g: Rules, body: seq<Entity>, c: nat)
    requires RulesOk(g) && BodyOk(body) && c < EntityWidth(g, body)
    ensures c < Width(RulesOf(g), SymsOf(body))
    ensures SymsOf(EntityVariant(g, body, c)) == Variant(RulesOf(g), SymsOf(body), c)
    ensures BodyOk(EntityVariant(g, body, c))
    decreases |body|
  {
    WidthAgrees(g, body);
    if body != [] {
      PreLastSyms(body);
      WidthAgrees(g, Pre(body));
      var split := EntityWidth(g, Pre(body)) > 1;
      var c' := if split then c else 0;
      VariantAgrees(g, Pre(body), c');
      PieceSyms(g, Last(body), true, 0);
      PieceSyms(g, Last(body), split, c);
      SymsConcat(EntityVariant(g, Pre(body), c'), EntityPiece(g, Last(body), split, c));
    }
  }

  lemma RulesConcat(a: Rules, b: Rules)
    ensures RulesOf(a + b) == RulesOf(a) + RulesOf(b)
  {
  }

  lemma NewRulesAgree(g: Rules, rule: GrammarRule)
    requires RulesOk(g) && BodyOk(rule.body)
    ensures RulesOf(NewRules(g, rule)) == VariantRules(RulesOf(g), RuleOf(rule))
    ensures RulesOk(NewRules(g, rule))
  {
    WidthAgrees(g, rule.body);
    forall c | 0 <= c < EntityWidth(g, rule.body)
      ensures SymsOf(EntityVariant(g, rule.body, c)) == Variant(RulesOf(g), SymsOf(rule.body), c)
      ensures BodyOk(EntityVariant(g, rule.body, c))
    {
      VariantAgrees(g, rule.body, c);
    }
  }

  lemma NewKeys(g: Rules, rule: GrammarRule)
    ensures forall r :: r in NewRules(g, rule) ==> r.key == rule.key
  {
  }

  lemma {:induction false} RoundFromAgrees(g: Rules, rules: Rules)
    requires RulesOk(g) && RulesOk(rules)
    ensures RulesOf(RoundFrom(g, rules)) == StepRules(RulesOf(g), RulesOf(rules))
    ensures RulesOk(RoundFrom(g, rules))
    ensures forall r :: r in RoundFrom(g, rules) ==> exists o :: o in rules && o.key == r.key
    decreases |rules|
  {
    hide RuleOf, NewRules, VariantRules, BodyOk, EntityVariant, Variant, EntityWidth, Width;
    if rules != [] {
      RoundFromAgrees(g, Pre(rules));
      assert rules == Pre(rules) + [Last(rules)];
      NewRulesAgree(g, Last(rules));
      RulesConcat(RoundFrom(g, Pre(rules)), NewRules(g, Last(rules)));
      assert Pre(RulesOf(rules)) == RulesOf(Pre(rules)) && Last(RulesOf(rules)) == RuleOf(Last(rules));
      NewKeys(g, Last(rules));
    }
  }

  /** One round of the grammar is one round of Cfg; bodies stay well formed. */
  lemma RoundAgrees(g: Rules)
    requires RulesOk(g)
    ensures RulesOf(Round(g)) == Step(RulesOf(g)) && RulesOk(Round(g))
    ensures forall r :: r in Round(g) ==> exists o :: o in g && o.key == r.key
  {
    RoundFromAgrees(g, g);
  }

  predicate NoneDeferred(g: Rules, rules: Rules) {
    forall rule :: rule in rules ==> !EntityDeferred(g, rule.body)
  }

  predicate RoundComplete(g: Rules) {
    NoneDeferred(g, g)
  }

  lemma CompleteAgrees(g: Rules)
    requires RulesOk(g)
    ensures RoundComplete(g) <==> Complete(RulesOf(g))
  {
    forall i | 0 <= i < |g|
      ensures EntityDeferred(g, g[i].body) == Deferred(RulesOf(g), RulesOf(g)[i].body)
    {
      assert g[i] in g;
      WidthAgrees(g, g[i].body);
    }
    if Complete(RulesOf(g)) {
      forall rule | rule in g ensures !EntityDeferred(g, rule.body) {
        var i :| 0 <= i < |g| && g[i] == rule;
        assert !Deferred(RulesOf(g), RulesOf(g)[i].body);
      }
    }
  }

  /** The rules after `n` rounds. */
  function Rounds(g: Rules, n: nat): Rules {
    if n == 0 then g else Round(Rounds(g, n - 1))
  }

  lemma {:induction false} RoundsAgree(g: Rules, n: nat)
    requires RulesOk(g)
    ensures RulesOf(Rounds(g, n)) == Iterate(RulesOf(g), n) && RulesOk(Rounds(g, n))
  {
    hide RulesOk, Round;
    if n > 0 {
      RoundsAgree(g, n - 1);
      RoundAgrees(Rounds(g, n - 1));
      IterateNext(RulesOf(g), n - 1);
    }
  }

  /** The first round that reports completion is the round after `n` others. */
  ghost predicate FirstCompleteRound(g: Rules, n: nat) {
    RoundComplete(Rounds(g, n)) && forall m: nat :: m < n ==> !RoundComplete(Rounds(g, m))
  }

  lemma FirstCompleteAgrees(g: Rules, n: nat)
    requires RulesOk(g) && FirstCompleteRound(g, n)
    ensures FirstComplete(RulesOf(g), n)
  {
    hide RulesOk, RoundComplete, Complete, Rounds, Iterate;
    forall m: nat | m <= n ensures RoundComplete(Rounds(g, m)) == Complete(Iterate(RulesOf(g), m)) {
      RoundsAgree(g, m);
      CompleteAgrees(Rounds(g, m));
    }
  }

  /** What `expand` leaves, said of the rules it starts from. */
  lemma ExpandedRules(g: Rules, n: nat)
    requires RulesOk(g) && FirstCompleteRound(g, n)
    ensures ReplFree(RulesOf(Rounds(g, n + 1))) <==> Shallow(RulesOf(Rounds(g, n)))
    ensures Shallow(RulesOf(g)) ==> ReplFree(RulesOf(Rounds(g, n + 1)))
  {
    hide RulesOk, ReplFree, Shallow, FirstCompleteRound, FirstComplete, Iterate;
    FirstCompleteAgrees(g, n);
    RoundsAgree(g, n);
    RoundsAgree(g, n + 1);
    ExpandedReplFree(RulesOf(g), n);
  }

  /** The languages of the rule keys. */
  ghost predicate SameLanguage(g: Rules, h: Rules) {
    forall key, w :: InLanguage(RulesOf(g), key, w) <==> InLanguage(RulesOf(h), key, w)
  }

  lemma SameLanguageItself(g: Rules)
    ensures SameLanguage(g, g)
  {
  }

  lemma SameLanguageTwice(g: Rules, h: Rules, k: Rules)
    requires SameLanguage(g, h) && SameLanguage(h, k)
    ensures SameLanguage(g, k)
  {
    hide InLanguage;
  }

  lemma EmptyBody(g: Rules)
    ensures EntityWidth(g, []) == 1 && EntityVariant(g, [], 0) == [] && !EntityDeferred(g, [])
  {
  }

  /** What one more symbol does to the new bodies. */
  lemma LongerBody(g: Rules, body: seq<Entity>, e: Entity)
    ensures var bodies, w := Bodies(g, ToKey(e)), EntityWidth(g, body);
            var ambiguous := TypeOf(e) == 'r' && |bodies| >= 2;
            EntityWidth(g, body + [e]) == (if ambiguous && w == 1 then |bodies| else w) &&
            (EntityDeferred(g, body + [e]) <==> EntityDeferred(g, body) || (w > 1 && ambiguous)) &&
            forall c: nat :: c < EntityWidth(g, body + [e]) ==>
              EntityVariant(g, body + [e], c) ==
              EntityVariant(g, body, if w > 1 then c else 0) + EntityPiece(g, e, w > 1, c)
  {
    assert Pre(body + [e]) == body && Last(body + [e]) == e;
  }

  lemma LongerRound(g: Rules, rules: Rules, rule: GrammarRule)
    ensures RoundFrom(g, rules + [rule]) == RoundFrom(g, rules) + NewRules(g, rule)
    ensures NoneDeferred(g, rules + [rule]) <==> NoneDeferred(g, rules) && !EntityDeferred(g, rule.body)
  {
    assert Pre(rules + [rule]) == rules && Last(rules + [rule]) == rule;
  }

  /** Everything `expand` needs to know about one round. */
  lemma RoundFacts(g: Rules, weights: map<string, nat>)
    requires RulesOk(g) && AllDefined(RulesOf(g)) && Weighted(RulesOf(g), weights)
    ensures RulesOk(Round(g)) && SameLanguage(g, Round(g))
    ensures AllDefined(RulesOf(Round(g))) && Weighted(RulesOf(Round(g)), weights)
    ensures !RoundComplete(g) ==> Top(RulesOf(Round(g)), weights) < Top(RulesOf(g), weights)
    ensures CleanRules(g) ==> CleanRules(Round(g))
    ensures forall r :: r in Round(g) ==> exists o :: o in g && o.key == r.key
  {
    RoundAgrees(g);
    CompleteAgrees(g);
    if CleanRules(g) { CleanRound(g, g); }
    StepKeepsDefined(RulesOf(g));
    StepKeepsWeights(RulesOf(g), weights);
    RoundLowersTop(RulesOf(g), weights);
    forall key, w
      ensures InLanguage(RulesOf(g), key, w) <==> InLanguage(RulesOf(Round(g)), key, w)
    {
      StepPreservesLanguage(RulesOf(g), key, w);
    }
  }

  // ---- keys without spaces -------------------------------------------------------

  predicate CleanBody(body: seq<Entity>) {
    forall e :: e in body ==> NoneOf(ToKey(e), {' '})
  }

  predicate CleanRules(g: Rules) {
    forall rule :: rule in g ==> NoneOf(rule.key, {' '}) && CleanBody(rule.body)
  }

  lemma CleanInherited(body: seq<Entity>, from: Entity)
    requires BodyOk(body) && CleanBody(body) && SymbolOk(from) && TypeOf(from) == 'r'
    ensures CleanBody(Inherited(body, from))
  {
    var r := Inherited(body, from);
    forall i | 0 <= i < |r| ensures NoneOf(ToKey(r[i]), {' '}) {
      assert body[i] in body;
      InheritKeepsKey(body[i], from);
    }
  }

  lemma {:induction false} CleanVariant(g: Rules, body: seq<Entity>, c: nat)
    requires RulesOk(g) && CleanRules(g) && BodyOk(body) && CleanBody(body) && c < EntityWidth(g, body)
    ensures CleanBody(EntityVariant(g, body, c))
    decreases |body|
  {
    if body != [] {
      PreLastSyms(body);
      var e, split := Last(body), EntityWidth(g, Pre(body)) > 1;
      CleanVariant(g, Pre(body), if split then c else 0);
      CleanPiece(g, e, split, c);
    }
  }

  lemma CleanPiece(g: Rules, e: Entity, split: bool, c: nat)
    requires RulesOk(g) && CleanRules(g) && SymbolOk(e) && NoneOf(ToKey(e), {' '})
    requires TypeOf(e) == 'r' && |Bodies(g, ToKey(e))| >= 2 && !split ==> c < |Bodies(g, ToKey(e))|
    ensures CleanBody(EntityPiece(g, e, split, c))
  {
    BodiesAreAlternatives(g, ToKey(e));
    var bodies := Bodies(g, ToKey(e));
    if TypeOf(e) == 'r' && bodies != [] && !(split && |bodies| >= 2) {
      var k := if |bodies| == 1 then 0 else c;
      assert GrammarRule(ToKey(e), bodies[k]) in g;
      CleanInherited(bodies[k], e);
    }
  }

  lemma {:induction false} CleanRound(g: Rules, rules: Rules)
    requires RulesOk(g) && CleanRules(g) && RulesOk(rules) && CleanRules(rules)
    ensures CleanRules(RoundFrom(g, rules))
    decreases |rules|
  {
    if rules != [] {
      assert rules == Pre(rules) + [Last(rules)];
      CleanRound(g, Pre(rules));
      CleanNewRules(g, Last(rules));
    }
  }

  lemma CleanNewRules(g: Rules, rule: GrammarRule)
    requires RulesOk(g) && CleanRules(g) && BodyOk(rule.body) && CleanRules([rule])
    ensures CleanRules(NewRules(g, rule))
  {
    assert rule in [rule];
    var news := NewRules(g, rule);
    forall c | 0 <= c < |news| ensures NoneOf(news[c].key, {' '}) && CleanBody(news[c].body) {
      CleanVariant(g, rule.body, c);
    }
  }
}
