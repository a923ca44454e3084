/** What expansion does with the markers of the symbols that it replaces. */
module MarkedExpansion {
  import opened Text
  import opened Entities
  import opened Expansion
  import Cfg

  /** The body with more markers behind those that its elements have: a symbol that comes into a
      body has its own markers, and then those of the replacement symbols that it stands for. */
  function WithMarkers(body: seq<Entity>, ms: seq<string>): (r: seq<Entity>)
    ensures |r| == |body|
  {
    seq(|body|, i requires 0 <= i < |body| => body[i].(virt := body[i].virt + ms))
  }

  /** `w` comes from `body` by replacing symbols by bodies of their rules, nested at most `n` deep;
      a replacement hands its markers on. With `whole`, every replacement symbol is replaced. */
  ghost predicate Unfolds(g: Rules, whole: bool, n: nat, body: seq<Entity>, w: seq<Entity>)
    decreases n, |body|, 1
  {
    if body == [] then w == []
    else
      exists u, v ::
        w == u + v && Unfolds(g, whole, n, Cfg.Pre(body), u) && OneUnfolds(g, whole, n, Cfg.Last(body), v)
  }

  ghost predicate OneUnfolds(g: Rules, whole: bool, n: nat, e: Entity, w: seq<Entity>)
    decreases n, 0, 0
  {
    || (w == [e] && (TypeOf(e) != 'r' || !whole))
    || (TypeOf(e) == 'r' && n > 0 &&
        exists rule :: rule in g && rule.key == ToKey(e) && Unfolds(g, whole, n - 1, WithMarkers(rule.body, e.virt), w))
  }

  ghost predicate UnfoldsTo(g: Rules, whole: bool, body: seq<Entity>, w: seq<Entity>) {
    exists n: nat :: Unfolds(g, whole, n, body, w)
  }

  /** The marked bodies that the rules of a key stand for. */
  ghost predicate StandsFor(g: Rules, whole: bool, key: string, w: seq<Entity>) {
    exists rule :: rule in g && rule.key == key && UnfoldsTo(g, whole, rule.body, w)
  }

  lemma {:induction false} UnfoldsMono(g: Rules, whole: bool, n: nat, m: nat, body: seq<Entity>, w: seq<Entity>)
    requires n <= m && Unfolds(g, whole, n, body, w)
    ensures Unfolds(g, whole, m, body, w)
    decreases n, |body|
  {
    hide WithMarkers, ToKey, TypeOf;
    if body != [] {
      var u, v := Unsnoc(g, whole, n, body, w);
      UnfoldsMono(g, whole, n, m, Cfg.Pre(body), u);
      var e := Cfg.Last(body);
      if !(v == [e] && (TypeOf(e) != 'r' || !whole)) {
        var rule :| rule in g && rule.key == ToKey(e) && Unfolds(g, whole, n - 1, WithMarkers(rule.body, e.virt), v);
        UnfoldsMono(g, whole, n - 1, m - 1, WithMarkers(rule.body, e.virt), v);
      }
      Snoc(g, whole, m, body, u, v, w);
    }
  }

  lemma Snoc(g: Rules, whole: bool, n: nat, body: seq<Entity>, u: seq<Entity>, v: seq<Entity>, w: seq<Entity>)
    requires body != [] && w == u + v
    requires Unfolds(g, whole, n, Cfg.Pre(body), u) && OneUnfolds(g, whole, n, Cfg.Last(body), v)
    ensures Unfolds(g, whole, n, body, w)
  {
  }

  lemma Unsnoc(g: Rules, whole: bool, n: nat, body: seq<Entity>, w: seq<Entity>)
    returns (u: seq<Entity>, v: seq<Entity>)
    requires body != [] && Unfolds(g, whole, n, body, w)
    ensures w == u + v && Unfolds(g, whole, n, Cfg.Pre(body), u) && OneUnfolds(g, whole, n, Cfg.Last(body), v)
  {
    u, v :| w == u + v && Unfolds(g, whole, n, Cfg.Pre(body), u) && OneUnfolds(g, whole, n, Cfg.Last(body), v);
  }

  lemma {:induction false} UnfoldsAppend(g: Rules, whole: bool, n: nat, a: seq<Entity>, b: seq<Entity>,
                                         u: seq<Entity>, v: seq<Entity>)
    requires Unfolds(g, whole, n, a, u) && Unfolds(g, whole, n, b, v)
    ensures Unfolds(g, whole, n, a + b, u + v)
    decreases |b|
  {
    hide OneUnfolds;
    if b == [] {
      assert a + b == a && u + v == u;
    } else {
      var x, y := Unsnoc(g, whole, n, b, v);
      UnfoldsAppend(g, whole, n, a, Cfg.Pre(b), u, x);
      Cfg.PreLastAppend(a, b);
      Cfg.Assoc(u, x, y);
      Snoc(g, whole, n, a + b, u + x, y, u + v);
    }
  }

  lemma {:induction false} UnfoldsSplit(g: Rules, whole: bool, n: nat, a: seq<Entity>, b: seq<Entity>, w: seq<Entity>)
    returns (u: seq<Entity>, v: seq<Entity>)
    requires Unfolds(g, whole, n, a + b, w)
    ensures w == u + v && Unfolds(g, whole, n, a, u) && Unfolds(g, whole, n, b, v)
    decreases |b|
  {
    hide OneUnfolds;
    if b == [] {
      assert a + b == a;
      u, v := w, [];
    } else {
      var x, y := Unsnoc(g, whole, n, a + b, w);
      Cfg.PreLastAppend(a, b);
      var u0, v0 := UnfoldsSplit(g, whole, n, a, Cfg.Pre(b), x);
      Cfg.Assoc(u0, v0, y);
      Snoc(g, whole, n, b, v0, y, v0 + y);
      u, v := u0, v0 + y;
    }
  }

  lemma UnfoldsSingle(g: Rules, whole: bool, n: nat, e: Entity, w: seq<Entity>)
    ensures Unfolds(g, whole, n, [e], w) <==> OneUnfolds(g, whole, n, e, w)
  {
    hide OneUnfolds;
    assert Cfg.Pre([e]) == [] && Cfg.Last([e]) == e;
    if OneUnfolds(g, whole, n, e, w) {
      assert w == [] + w && Unfolds(g, whole, n, [], []);
    }
    if Unfolds(g, whole, n, [e], w) {
      var u, v := Unsnoc(g, whole, n, [e], w);
      assert u + v == v;
    }
  }

  // ---- markers on bodies ---------------------------------------------------------------------

  predicate MarkersOk(ms: seq<string>) {
    forall m :: m in ms ==> VirtOk(m, true)
  }

  lemma InheritedIsMarked(body: seq<Entity>, e: Entity)
    requires BodyOk(body) && SymbolOk(e) && TypeOf(e) == 'r'
    ensures Inherited(body, e) == WithMarkers(body, e.virt)
  {
    hide Mark, WellFormed;
    forall i | 0 <= i < |body| ensures Inherited(body, e)[i] == WithMarkers(body, e.virt)[i] {
      assert body[i] in body;
      InheritedOrder(body[i], e);
    }
  }

  lemma MarkedSymbol(e: Entity, ms: seq<string>)
    requires SymbolOk(e) && MarkersOk(ms)
    ensures var m := e.(virt := e.virt + ms);
            SymbolOk(m) && ToKey(m) == ToKey(e) && TypeOf(m) == TypeOf(e) && MarkersOk(e.virt)
  {
  }

  lemma MarkedBody(body: seq<Entity>, ms: seq<string>)
    requires BodyOk(body) && MarkersOk(ms)
    ensures BodyOk(WithMarkers(body, ms))
  {
    hide SymbolOk, MarkersOk, ToKey, TypeOf;
    forall i | 0 <= i < |body| ensures SymbolOk(WithMarkers(body, ms)[i]) {
      assert body[i] in body;
      MarkedSymbol(body[i], ms);
    }
  }

  lemma MarkedTwice(body: seq<Entity>, a: seq<string>, b: seq<string>)
    ensures WithMarkers(WithMarkers(body, a), b) == WithMarkers(body, a + b)
  {
    forall i | 0 <= i < |body| ensures WithMarkers(WithMarkers(body, a), b)[i] == WithMarkers(body, a + b)[i] {
      assert (body[i].virt + a) + b == body[i].virt + (a + b);
    }
  }

  lemma MarkedParts(body: seq<Entity>, ms: seq<string>)
    requires body != []
    ensures WithMarkers(body, ms) != [] && Cfg.Pre(WithMarkers(body, ms)) == WithMarkers(Cfg.Pre(body), ms)
    ensures Cfg.Last(WithMarkers(body, ms)) == Cfg.Last(body).(virt := Cfg.Last(body).virt + ms)
    ensures Cfg.Last(body) in body && forall e :: e in Cfg.Pre(body) ==> e in body
  {
  }

  lemma MarkedConcat(a: seq<Entity>, b: seq<Entity>, ms: seq<string>)
    ensures WithMarkers(a + b, ms) == WithMarkers(a, ms) + WithMarkers(b, ms)
  {
  }

  lemma UnmarkedBody(body: seq<Entity>)
    ensures WithMarkers(body, []) == body
  {
    forall i | 0 <= i < |body| ensures WithMarkers(body, [])[i] == body[i] {
      assert body[i].virt + [] == body[i].virt;
    }
  }

  lemma {:induction false} BodiesAre(g: Rules, key: string, body: seq<Entity>)
    ensures body in Bodies(g, key) <==> GrammarRule(key, body) in g
    decreases |g|
  {
    if g != [] {
      BodiesAre(g[1..], key, body);
      assert g == [g[0]] + g[1..];
    }
  }

  lemma PieceCommutes(g: Rules, e: Entity, ms: seq<string>, split: bool, c: nat)
    requires RulesOk(g) && SymbolOk(e) && MarkersOk(ms)
    requires TypeOf(e) == 'r' && |Bodies(g, ToKey(e))| >= 2 && !split ==> c < |Bodies(g, ToKey(e))|
    ensures var m := e.(virt := e.virt + ms);
            TypeOf(m) == TypeOf(e) && ToKey(m) == ToKey(e) &&
            EntityPiece(g, m, split, c) == WithMarkers(EntityPiece(g, e, split, c), ms)
  {
    hide SymbolOk, MarkersOk, ToKey, TypeOf, Inherited, Bodies;
    MarkedSymbol(e, ms);
    var m, bodies := e.(virt := e.virt + ms), Bodies(g, ToKey(e));
    if TypeOf(e) == 'r' {
      forall k | 0 <= k < |bodies| ensures Inherited(bodies[k], m) == WithMarkers(Inherited(bodies[k], e), ms) {
        BodiesAre(g, ToKey(e), bodies[k]);
        InheritedIsMarked(bodies[k], e);
        InheritedIsMarked(bodies[k], m);
        MarkedTwice(bodies[k], e.virt, ms);
      }
    }
  }

  /** Expanding a body and marking its elements can be done in either order. */
  lemma {:induction false} VariantCommutes(g: Rules, body: seq<Entity>, ms: seq<string>, c: nat)
    requires RulesOk(g) && BodyOk(body) && MarkersOk(ms) && c < EntityWidth(g, body)
    ensures EntityWidth(g, WithMarkers(body, ms)) == EntityWidth(g, body)
    ensures EntityVariant(g, WithMarkers(body, ms), c) == WithMarkers(EntityVariant(g, body, c), ms)
    decreases |body|
  {
    hide SymbolOk, MarkersOk, ToKey, TypeOf, EntityPiece, Bodies, RulesOk;
    if body != [] {
      MarkedParts(body, ms);
      var split := EntityWidth(g, Cfg.Pre(body)) > 1;
      var c' := if split then c else 0;
      VariantCommutes(g, Cfg.Pre(body), ms, c');
      PieceCommutes(g, Cfg.Last(body), ms, true, c);
      PieceCommutes(g, Cfg.Last(body), ms, split, c);
      MarkedConcat(EntityVariant(g, Cfg.Pre(body), c'), EntityPiece(g, Cfg.Last(body), split, c), ms);
    }
  }

  // ---- one round adds nothing --------------------------------------------------------------

  /** The replacement symbols of a body have rules. */
  ghost predicate HasRules(g: Rules, body: seq<Entity>) {
    forall e :: e in body && TypeOf(e) == 'r' ==> Bodies(g, ToKey(e)) != []
  }

  lemma DefinedHasRules(g: Rules, rule: GrammarRule, ms: seq<string>)
    requires Cfg.AllDefined(RulesOf(g)) && RulesOk(g) && rule in g && MarkersOk(ms)
    ensures HasRules(g, WithMarkers(rule.body, ms))
  {
    hide SymbolOk, MarkersOk, Bodies, ToKey, TypeOf;
    var i :| 0 <= i < |g| && g[i] == rule;
    assert RulesOf(g)[i] == RuleOf(rule);
    forall k | 0 <= k < |rule.body| && TypeOf(WithMarkers(rule.body, ms)[k]) == 'r'
      ensures Bodies(g, ToKey(WithMarkers(rule.body, ms)[k])) != [] {
      var e := rule.body[k];
      assert e in rule.body;
      MarkedSymbol(e, ms);
      assert SymsOf(rule.body)[k] == Cfg.R(ToKey(e));
      BodiesAreAlternatives(g, ToKey(e));
    }
  }

  lemma PieceSound(g: Rules, whole: bool, e: Entity, split: bool, c: nat, n: nat, v: seq<Entity>)
    requires RulesOk(g) && SymbolOk(e) && (TypeOf(e) == 'r' ==> Bodies(g, ToKey(e)) != [])
    requires TypeOf(e) == 'r' && |Bodies(g, ToKey(e))| >= 2 && !split ==> c < |Bodies(g, ToKey(e))|
    requires Unfolds(g, whole, n, EntityPiece(g, e, split, c), v)
    ensures OneUnfolds(g, whole, n + 1, e, v)
  {
    hide SymbolOk, Inherited, Bodies, Unfolds, ToKey, TypeOf, WithMarkers;
    var bodies := Bodies(g, ToKey(e));
    if TypeOf(e) == 'r' && (|bodies| == 1 || !split) {
      var k := if |bodies| == 1 then 0 else c;
      BodiesAre(g, ToKey(e), bodies[k]);
      assert GrammarRule(ToKey(e), bodies[k]) in g;
      InheritedIsMarked(bodies[k], e);
      assert Unfolds(g, whole, n, WithMarkers(GrammarRule(ToKey(e), bodies[k]).body, e.virt), v);
    } else {
      UnfoldsMono(g, whole, n, n + 1, [e], v);
      UnfoldsSingle(g, whole, n + 1, e, v);
    }
  }

  lemma {:induction false} VariantSound(g: Rules, whole: bool, body: seq<Entity>, c: nat, n: nat, w: seq<Entity>)
    requires RulesOk(g) && BodyOk(body) && HasRules(g, body)
    requires c < EntityWidth(g, body) && Unfolds(g, whole, n, EntityVariant(g, body, c), w)
    ensures Unfolds(g, whole, n + 1, body, w)
    decreases |body|
  {
    hide EntityPiece, Bodies, OneUnfolds, SymbolOk, RulesOk, ToKey, TypeOf;
    if body != [] {
      PreLastSyms(body);
      var split := EntityWidth(g, Cfg.Pre(body)) > 1;
      var c' := if split then c else 0;
      var front, piece := EntityVariant(g, Cfg.Pre(body), c'), EntityPiece(g, Cfg.Last(body), split, c);
      var u, v := UnfoldsSplit(g, whole, n, front, piece, w);
      VariantSound(g, whole, Cfg.Pre(body), c', n, u);
      PieceSound(g, whole, Cfg.Last(body), split, c, n, v);
      Snoc(g, whole, n + 1, body, u, v, w);
    }
  }

  ghost predicate IsNew(g: Rules, rule: GrammarRule, c: int, r: GrammarRule) {
    0 <= c < EntityWidth(g, rule.body) && r == GrammarRule(rule.key, EntityVariant(g, rule.body, c))
  }

  lemma {:induction false} InRound(g: Rules, rules: Rules, r: GrammarRule)
    ensures r in RoundFrom(g, rules) <==> exists rule, c :: rule in rules && IsNew(g, rule, c, r)
    decreases |rules|
  {
    hide EntityVariant, EntityWidth;
    if rules != [] {
      InRound(g, Cfg.Pre(rules), r);
      assert rules == Cfg.Pre(rules) + [Cfg.Last(rules)];
      var news := NewRules(g, Cfg.Last(rules));
      if r in news {
        var c :| 0 <= c < |news| && r == news[c];
        assert IsNew(g, Cfg.Last(rules), c, r);
      }
      forall rule, c | rule in rules && IsNew(g, rule, c, r) ensures r in RoundFrom(g, rules) {
        if rule == Cfg.Last(rules) { assert r == news[c]; } else { assert rule in Cfg.Pre(rules); }
      }
    }
  }

  lemma UnfoldsToAppend(g: Rules, whole: bool, body: seq<Entity>, u: seq<Entity>, v: seq<Entity>)
    requires body != [] && UnfoldsTo(g, whole, Cfg.Pre(body), u) && UnfoldsTo(g, whole, [Cfg.Last(body)], v)
    ensures UnfoldsTo(g, whole, body, u + v)
  {
    hide Unfolds;
    var n: nat :| Unfolds(g, whole, n, Cfg.Pre(body), u);
    var m: nat :| Unfolds(g, whole, m, [Cfg.Last(body)], v);
    var k := if n < m then m else n;
    UnfoldsMono(g, whole, n, k, Cfg.Pre(body), u);
    UnfoldsMono(g, whole, m, k, [Cfg.Last(body)], v);
    UnfoldsAppend(g, whole, k, Cfg.Pre(body), [Cfg.Last(body)], u, v);
    assert body == Cfg.Pre(body) + [Cfg.Last(body)];
  }

  lemma BySymbol(g: Rules, whole: bool, e: Entity, rule: GrammarRule, w: seq<Entity>)
    requires TypeOf(e) == 'r' && rule in g && rule.key == ToKey(e)
    requires UnfoldsTo(g, whole, WithMarkers(rule.body, e.virt), w)
    ensures UnfoldsTo(g, whole, [e], w)
  {
    hide Unfolds, ToKey, TypeOf, WithMarkers;
    var n: nat :| Unfolds(g, whole, n, WithMarkers(rule.body, e.virt), w);
    assert OneUnfolds(g, whole, n + 1, e, w);
    UnfoldsSingle(g, whole, n + 1, e, w);
  }

  lemma NothingUnfolds(g: Rules, whole: bool)
    ensures UnfoldsTo(g, whole, [], [])
  {
    assert Unfolds(g, whole, 0, [], []);
  }

  lemma ItselfUnfolds(g: Rules, whole: bool, e: Entity)
    requires TypeOf(e) != 'r' || !whole
    ensures UnfoldsTo(g, whole, [e], [e])
  {
    UnfoldsSingle(g, whole, 0, e, [e]);
  }

  lemma SymbolMarkers(e: Entity)
    requires SymbolOk(e)
    ensures MarkersOk(e.virt)
  {
  }

  /** Where a rule of the next round leads, with any markers, its old rule led. */
  lemma NewRuleSound(g: Rules, whole: bool, r: GrammarRule, ms: seq<string>, w: seq<Entity>) returns (rule: GrammarRule)
    requires RulesOk(g) && Cfg.AllDefined(RulesOf(g)) && r in Round(g) && MarkersOk(ms)
    requires UnfoldsTo(g, whole, WithMarkers(r.body, ms), w)
    ensures rule in g && rule.key == r.key && UnfoldsTo(g, whole, WithMarkers(rule.body, ms), w)
  {
    hide Unfolds, EntityVariant, EntityWidth, BodyOk, HasRules, MarkersOk, Cfg.AllDefined;
    InRound(g, g, r);
    var from, c :| from in g && IsNew(g, from, c, r);
    VariantCommutes(g, from.body, ms, c);
    MarkedBody(from.body, ms);
    DefinedHasRules(g, from, ms);
    var n: nat :| Unfolds(g, whole, n, WithMarkers(r.body, ms), w);
    VariantSound(g, whole, WithMarkers(from.body, ms), c, n, w);
    rule := from;
  }

  lemma {:induction false} RoundAddsNothing(g: Rules, whole: bool, n: nat, body: seq<Entity>, w: seq<Entity>)
    requires RulesOk(g) && Cfg.AllDefined(RulesOf(g)) && BodyOk(body) && Unfolds(Round(g), whole, n, body, w)
    ensures UnfoldsTo(g, whole, body, w)
    decreases n, |body|
  {
    hide RulesOk, Cfg.AllDefined, SymbolOk, ToKey, TypeOf, WithMarkers, Round, UnfoldsTo, MarkersOk;
    NothingUnfolds(g, whole);
    RoundAgrees(g);
    if body != [] {
      var u, v := Unsnoc(Round(g), whole, n, body, w);
      PreLastSyms(body);
      RoundAddsNothing(g, whole, n, Cfg.Pre(body), u);
      var e := Cfg.Last(body);
      if v == [e] && (TypeOf(e) != 'r' || !whole) {
        ItselfUnfolds(g, whole, e);
      } else {
        var r :| r in Round(g) && r.key == ToKey(e) && Unfolds(Round(g), whole, n - 1, WithMarkers(r.body, e.virt), v);
        SymbolMarkers(e);
        BodyOfRule(Round(g), r);
        MarkedBody(r.body, e.virt);
        RoundAddsNothing(g, whole, n - 1, WithMarkers(r.body, e.virt), v);
        var rule := NewRuleSound(g, whole, r, e.virt, v);
        BySymbol(g, whole, e, rule, v);
      }
      UnfoldsToAppend(g, whole, body, u, v);
    }
  }

  lemma BodyOfRule(g: Rules, rule: GrammarRule)
    requires RulesOk(g) && rule in g
    ensures BodyOk(rule.body)
  {
  }

  // ---- one round loses nothing -------------------------------------------------------------

  lemma PieceComplete(g: Rules, e: Entity, split: bool, c': nat, n: nat, v: seq<Entity>) returns (c: nat)
    requires RulesOk(g) && SymbolOk(e) && OneUnfolds(g, true, n, e, v)
    ensures split || !(TypeOf(e) == 'r' && |Bodies(g, ToKey(e))| >= 2) ==> c == c'
    ensures TypeOf(e) == 'r' && |Bodies(g, ToKey(e))| >= 2 && !split ==> c < |Bodies(g, ToKey(e))|
    ensures Unfolds(g, true, n, EntityPiece(g, e, split, c), v)
  {
    hide SymbolOk, Inherited, Bodies, Unfolds, ToKey, TypeOf, WithMarkers;
    c := c';
    var bodies := Bodies(g, ToKey(e));
    if TypeOf(e) == 'r' && !(split && |bodies| >= 2) {
      var rule :| rule in g && rule.key == ToKey(e) && Unfolds(g, true, n - 1, WithMarkers(rule.body, e.virt), v);
      assert rule == GrammarRule(ToKey(e), rule.body);
      BodiesAre(g, ToKey(e), rule.body);
      var k :| 0 <= k < |bodies| && bodies[k] == rule.body;
      UnfoldsMono(g, true, n - 1, n, WithMarkers(rule.body, e.virt), v);
      c := if |bodies| >= 2 then k else c';
      InheritedIsMarked(bodies[k], e);
    } else {
      UnfoldsSingle(g, true, n, e, v);
    }
  }

  lemma {:induction false} VariantComplete(g: Rules, body: seq<Entity>, n: nat, w: seq<Entity>) returns (c: nat)
    requires RulesOk(g) && BodyOk(body) && Unfolds(g, true, n, body, w)
    ensures c < EntityWidth(g, body) && Unfolds(g, true, n, EntityVariant(g, body, c), w)
    decreases |body|
  {
    hide EntityPiece, EntityVariant, EntityWidth, Bodies, OneUnfolds, SymbolOk, RulesOk, ToKey, TypeOf;
    if body == [] {
      c := 0;
      EmptyBody(g);
    } else {
      var u, v := Unsnoc(g, true, n, body, w);
      PreLastSyms(body);
      var c' := VariantComplete(g, Cfg.Pre(body), n, u);
      assert body == Cfg.Pre(body) + [Cfg.Last(body)];
      c := OneSymbolMore(g, Cfg.Pre(body), Cfg.Last(body), c', n, u, v);
    }
  }

  lemma OneSymbolMore(g: Rules, body: seq<Entity>, e: Entity, c': nat, n: nat, u: seq<Entity>, v: seq<Entity>)
    returns (c: nat)
    requires RulesOk(g) && SymbolOk(e) && OneUnfolds(g, true, n, e, v)
    requires c' < EntityWidth(g, body) && Unfolds(g, true, n, EntityVariant(g, body, c'), u)
    ensures c < EntityWidth(g, body + [e]) && Unfolds(g, true, n, EntityVariant(g, body + [e], c), u + v)
  {
    hide EntityPiece, EntityVariant, EntityWidth, Bodies, OneUnfolds, Unfolds, SymbolOk, RulesOk, ToKey, TypeOf;
    var split := EntityWidth(g, body) > 1;
    c := PieceComplete(g, e, split, c', n, v);
    LongerBody(g, body, e);
    UnfoldsAppend(g, true, n, EntityVariant(g, body, c'), EntityPiece(g, e, split, c), u, v);
  }

  lemma NewRuleComplete(g: Rules, rule: GrammarRule, ms: seq<string>, n: nat, w: seq<Entity>) returns (r: GrammarRule)
    requires RulesOk(g) && rule in g && MarkersOk(ms) && Unfolds(g, true, n, WithMarkers(rule.body, ms), w)
    ensures r in Round(g) && r.key == rule.key && Unfolds(g, true, n, WithMarkers(r.body, ms), w)
  {
    hide Unfolds, EntityVariant, EntityWidth, BodyOk, MarkersOk;
    MarkedBody(rule.body, ms);
    var c := VariantComplete(g, WithMarkers(rule.body, ms), n, w);
    UnmarkedWidth(g, rule.body, ms);
    VariantCommutes(g, rule.body, ms, c);
    r := GrammarRule(rule.key, EntityVariant(g, rule.body, c));
    InRound(g, g, r);
    assert IsNew(g, rule, c, r);
  }

  lemma UnmarkedWidth(g: Rules, body: seq<Entity>, ms: seq<string>)
    requires RulesOk(g) && BodyOk(body) && MarkersOk(ms)
    ensures EntityWidth(g, WithMarkers(body, ms)) == EntityWidth(g, body)
  {
    VariantCommutes(g, body, ms, 0);
  }

  lemma {:induction false} RoundLosesNothing(g: Rules, n: nat, body: seq<Entity>, w: seq<Entity>)
    requires RulesOk(g) && BodyOk(body) && Unfolds(g, true, n, body, w)
    ensures UnfoldsTo(Round(g), true, body, w)
    decreases n, |body|
  {
    hide RulesOk, SymbolOk, ToKey, TypeOf, WithMarkers, Round, UnfoldsTo, MarkersOk;
    NothingUnfolds(Round(g), true);
    RoundAgrees(g);
    if body != [] {
      var u, v := Unsnoc(g, true, n, body, w);
      PreLastSyms(body);
      RoundLosesNothing(g, n, Cfg.Pre(body), u);
      var e := Cfg.Last(body);
      if v == [e] && TypeOf(e) != 'r' {
        ItselfUnfolds(Round(g), true, e);
      } else {
        var rule :| rule in g && rule.key == ToKey(e) && Unfolds(g, true, n - 1, WithMarkers(rule.body, e.virt), v);
        SymbolMarkers(e);
        var r := NewRuleComplete(g, rule, e.virt, n - 1, v);
        BodyOfRule(Round(g), r);
        MarkedBody(r.body, e.virt);
        RoundLosesNothing(g, n - 1, WithMarkers(r.body, e.virt), v);
        BySymbol(Round(g), true, e, r, v);
      }
      UnfoldsToAppend(Round(g), true, body, u, v);
    }
  }

  // ---- one round, and all of them ----------------------------------------------------------

  lemma RoundStandsFor(g: Rules, whole: bool, key: string, w: seq<Entity>)
    requires RulesOk(g) && Cfg.AllDefined(RulesOf(g)) && StandsFor(Round(g), whole, key, w)
    ensures StandsFor(g, whole, key, w)
  {
    hide RulesOk, Cfg.AllDefined, WithMarkers, Round;
    RoundAgrees(g);
    var r :| r in Round(g) && r.key == key && UnfoldsTo(Round(g), whole, r.body, w);
    var n: nat :| Unfolds(Round(g), whole, n, r.body, w);
    BodyOfRule(Round(g), r);
    RoundAddsNothing(g, whole, n, r.body, w);
    UnmarkedBody(r.body);
    var rule := NewRuleSound(g, whole, r, [], w);
    UnmarkedBody(rule.body);
  }

  /** One round keeps, for every key, exactly the marked bodies without replacement symbols that
      its rules stand for. */
  lemma RoundKeepsMarked(g: Rules, key: string, w: seq<Entity>)
    requires RulesOk(g) && Cfg.AllDefined(RulesOf(g))
    ensures StandsFor(Round(g), true, key, w) <==> StandsFor(g, true, key, w)
  {
    hide RulesOk, Cfg.AllDefined, WithMarkers, Round;
    RoundAgrees(g);
    if StandsFor(Round(g), true, key, w) {
      RoundStandsFor(g, true, key, w);
    }
    if StandsFor(g, true, key, w) {
      var rule :| rule in g && rule.key == key && UnfoldsTo(g, true, rule.body, w);
      var n: nat :| Unfolds(g, true, n, rule.body, w);
      UnmarkedBody(rule.body);
      var r := NewRuleComplete(g, rule, [], n, w);
      UnmarkedBody(r.body);
      BodyOfRule(Round(g), r);
      RoundLosesNothing(g, n, r.body, w);
    }
  }

  /** The same marked bodies stand behind every key. */
  ghost predicate SameMarked(g: Rules, h: Rules) {
    forall key, w :: StandsFor(g, true, key, w) <==> StandsFor(h, true, key, w)
  }

  /** Each body comes from a rule of `g` for its key, by replacing symbols. */
  ghost predicate AllFrom(g: Rules, h: Rules) {
    forall rule :: rule in h ==> StandsFor(g, false, rule.key, rule.body)
  }

  lemma {:induction false} BodyUnfoldsItself(g: Rules, body: seq<Entity>)
    ensures UnfoldsTo(g, false, body, body)
    decreases |body|
  {
    hide UnfoldsTo;
    NothingUnfolds(g, false);
    if body != [] {
      BodyUnfoldsItself(g, Cfg.Pre(body));
      ItselfUnfolds(g, false, Cfg.Last(body));
      UnfoldsToAppend(g, false, body, Cfg.Pre(body), [Cfg.Last(body)]);
      assert body == Cfg.Pre(body) + [Cfg.Last(body)];
    }
  }

  /** What the rounds of `expand` keep of the markers. */
  lemma {:induction false} RoundsKeepMarked(g: Rules, n: nat)
    requires RulesOk(g) && Cfg.AllDefined(RulesOf(g))
    ensures SameMarked(g, Rounds(g, n)) && RulesOk(Rounds(g, n)) && Cfg.AllDefined(RulesOf(Rounds(g, n)))
    ensures forall whole, key, w :: StandsFor(Rounds(g, n), whole, key, w) ==> StandsFor(g, whole, key, w)
  {
    hide RulesOk, Cfg.AllDefined, Round, StandsFor, RulesOf;
    if n > 0 {
      var h := Rounds(g, n - 1);
      RoundsKeepMarked(g, n - 1);
      RoundAgrees(h);
      Cfg.StepKeepsDefined(RulesOf(h));
      forall key, w ensures StandsFor(Round(h), true, key, w) <==> StandsFor(h, true, key, w) {
        RoundKeepsMarked(h, key, w);
      }
      forall whole, key, w | StandsFor(Round(h), whole, key, w) ensures StandsFor(g, whole, key, w) {
        RoundStandsFor(h, whole, key, w);
      }
    }
  }

  lemma RoundsComeFrom(g: Rules, n: nat)
    requires RulesOk(g) && Cfg.AllDefined(RulesOf(g))
    ensures SameMarked(g, Rounds(g, n)) && AllFrom(g, Rounds(g, n))
  {
    hide RulesOk, Cfg.AllDefined, UnfoldsTo, SameMarked;
    RoundsKeepMarked(g, n);
    forall rule | rule in Rounds(g, n) ensures StandsFor(g, false, rule.key, rule.body) {
      BodyUnfoldsItself(Rounds(g, n), rule.body);
      assert StandsFor(Rounds(g, n), false, rule.key, rule.body);
    }
  }

  lemma {:induction false} PlainUnfolds(g: Rules, n: nat, body: seq<Entity>, w: seq<Entity>)
    requires forall e :: e in body ==> TypeOf(e) != 'r'
    ensures Unfolds(g, true, n, body, w) <==> w == body
    decreases |body|
  {
    hide TypeOf, ToKey;
    if body != [] {
      var front, last := Cfg.Pre(body), Cfg.Last(body);
      assert body == front + [last] && last in body && forall e :: e in front ==> e in body;
      PlainUnfolds(g, n, front, front);
      if w == body { Snoc(g, true, n, body, front, [last], w); }
      if Unfolds(g, true, n, body, w) {
        var u, v := Unsnoc(g, true, n, body, w);
        PlainUnfolds(g, n, front, u);
      }
    }
  }

  /** Without replacement symbols, rules stand for their own bodies and nothing else: what `expand`
      leaves then are exactly the marked bodies that the rules as written stand for. */
  lemma ExpandedExactly(g: Rules, n: nat, key: string, w: seq<Entity>)
    requires RulesOk(g) && Cfg.AllDefined(RulesOf(g)) && Cfg.ReplFree(RulesOf(Rounds(g, n)))
    ensures GrammarRule(key, w) in Rounds(g, n) <==> StandsFor(g, true, key, w)
  {
    hide RulesOk, Cfg.AllDefined, TypeOf, ToKey, Unfolds, Rounds;
    RoundsComeFrom(g, n);
    var h := Rounds(g, n);
    forall rule | rule in h ensures UnfoldsTo(h, true, rule.body, w) <==> w == rule.body {
      FreeBody(h, rule);
      forall m: nat ensures Unfolds(h, true, m, rule.body, w) <==> w == rule.body {
        PlainUnfolds(h, m, rule.body, w);
      }
      assert Unfolds(h, true, 0, rule.body, w) <==> w == rule.body;
    }
    assert StandsFor(h, true, key, w) <==> StandsFor(g, true, key, w);
    if GrammarRule(key, w) in h { assert UnfoldsTo(h, true, GrammarRule(key, w).body, w); }
  }

  lemma FreeBody(h: Rules, rule: GrammarRule)
    requires Cfg.ReplFree(RulesOf(h)) && rule in h
    ensures forall e :: e in rule.body ==> TypeOf(e) != 'r'
  {
    hide ToKey;
    var i :| 0 <= i < |h| && h[i] == rule;
    assert RulesOf(h)[i] == RuleOf(rule) && RulesOf(h)[i] in RulesOf(h);
    forall k | 0 <= k < |rule.body| ensures TypeOf(rule.body[k]) != 'r' {
      assert SymsOf(rule.body)[k] in SymsOf(rule.body);
    }
  }

  /** Every new body of a body comes from it. */
  lemma VariantComesFrom(g: Rules, body: seq<Entity>, c: nat)
    requires RulesOk(g) && BodyOk(body) && HasRules(g, body) && c < EntityWidth(g, body)
    ensures UnfoldsTo(g, false, body, EntityVariant(g, body, c))
  {
    hide Unfolds, EntityVariant, EntityWidth, HasRules, BodyOk;
    BodyUnfoldsItself(g, EntityVariant(g, body, c));
    var n: nat :| Unfolds(g, false, n, EntityVariant(g, body, c), EntityVariant(g, body, c));
    VariantSound(g, false, body, c, n, EntityVariant(g, body, c));
  }

  lemma OneRoundComesFrom(g: Rules)
    requires RulesOk(g) && Cfg.AllDefined(RulesOf(g))
    ensures SameMarked(g, Round(g)) && AllFrom(g, Round(g))
  {
    hide SameMarked, AllFrom, Round;
    RoundsComeFrom(g, 1);
    assert Rounds(g, 1) == Round(Rounds(g, 0));
  }

  /** All that `expand` keeps, said of the rules it ends with. */
  lemma ExpandedMarked(g: Rules, n: nat)
    requires RulesOk(g) && Cfg.AllDefined(RulesOf(g))
    ensures SameMarked(g, Rounds(g, n)) && AllFrom(g, Rounds(g, n))
    ensures Cfg.ReplFree(RulesOf(Rounds(g, n))) ==>
              forall key, w :: GrammarRule(key, w) in Rounds(g, n) <==> StandsFor(g, true, key, w)
  {
    hide RulesOk, Cfg.AllDefined, Cfg.ReplFree, StandsFor, SameMarked, AllFrom, Rounds;
    RoundsComeFrom(g, n);
    if Cfg.ReplFree(RulesOf(Rounds(g, n))) {
      forall key, w ensures GrammarRule(key, w) in Rounds(g, n) <==> StandsFor(g, true, key, w) {
        ExpandedExactly(g, n, key, w);
      }
    }
  }
}
