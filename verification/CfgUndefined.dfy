/** What rounds of expansion make of replacement symbols without rules. */
module CfgUndefined {
  import opened Cfg

  function EmptyRules(names: seq<string>): (rs: seq<Rule>)
    ensures |rs| == |names|
  {
    seq(|names|, i requires 0 <= i < |names| => Rule(names[i], []))
  }

  /** The grammar with an empty rule for each of the names. */
  function Filled(g: seq<Rule>, names: seq<string>): seq<Rule> {
    g + EmptyRules(names)
  }

  /** The names have no rule and, with the keys, cover all symbols in use. */
  ghost predicate Undefined(g: seq<Rule>, names: seq<string>) {
    && (forall i :: 0 <= i < |names| ==> Alternatives(g, names[i]) == [])
    && (forall i, j :: 0 <= i < j < |names| ==> names[i] != names[j])
    && (forall rule, s :: rule in g && s in rule.body && s.R? ==> Alternatives(g, s.name) != [] || s.name in names)
  }

  lemma {:induction false} EmptyAlternatives(names: seq<string>, key: string)
    requires forall i, j :: 0 <= i < j < |names| ==> names[i] != names[j]
    ensures Alternatives(EmptyRules(names), key) == if key in names then [[]] else []
    decreases |names|
  {
    if names != [] {
      assert EmptyRules(names)[1..] == EmptyRules(names[1..]);
      EmptyAlternatives(names[1..], key);
      assert names == [names[0]] + names[1..];
      assert forall j :: 0 <= j < |names| - 1 ==> names[1..][j] == names[j + 1];
    }
  }

  lemma FilledAlternatives(g: seq<Rule>, names: seq<string>, key: string)
    requires Undefined(g, names)
    ensures Alternatives(Filled(g, names), key) == if key in names then [[]] else Alternatives(g, key)
  {
    AlternativesAppend(g, EmptyRules(names), key);
    EmptyAlternatives(names, key);
    if key in names { assert Alternatives(g, key) + [[]] == [[]]; }
  }

  lemma {:induction false} FilledVariant(g: seq<Rule>, names: seq<string>, body: seq<Sym>, c: nat)
    requires Undefined(g, names) && c < Width(g, body)
    ensures Width(Filled(g, names), body) == Width(g, body)
    ensures Variant(Filled(g, names), body, c) == Variant(g, body, c)
    decreases |body|
  {
    if body != [] {
      FilledAlternatives(g, names, Last(body).name);
      FilledVariant(g, names, Pre(body), if Width(g, Pre(body)) > 1 then c else 0);
    }
  }

  lemma FilledWidth(g: seq<Rule>, names: seq<string>, body: seq<Sym>)
    requires Undefined(g, names)
    ensures Width(Filled(g, names), body) == Width(g, body)
  {
    FilledVariant(g, names, body, 0);
  }

  lemma {:induction false} FilledStepRules(g: seq<Rule>, names: seq<string>, rules: seq<Rule>)
    requires Undefined(g, names)
    ensures StepRules(Filled(g, names), rules) == StepRules(g, rules)
    decreases |rules|
  {
    hide Undefined, Filled, Variant, Width;
    if rules != [] {
      var last := Last(rules);
      FilledStepRules(g, names, Pre(rules));
      FilledWidth(g, names, last.body);
      forall c | 0 <= c < Width(g, last.body)
        ensures Variant(Filled(g, names), last.body, c) == Variant(g, last.body, c) {
        FilledVariant(g, names, last.body, c);
      }
      assert VariantRules(Filled(g, names), last) == VariantRules(g, last);
    }
  }

  lemma {:induction false} StepRulesAppend(g: seq<Rule>, a: seq<Rule>, b: seq<Rule>)
    ensures StepRules(g, a + b) == StepRules(g, a) + StepRules(g, b)
    decreases |b|
  {
    hide VariantRules;
    if b == [] {
      assert a + b == a;
    } else {
      PreLastAppend(a, b);
      StepRulesAppend(g, a, Pre(b));
    }
  }

  lemma {:induction false} EmptyRulesStay(g: seq<Rule>, names: seq<string>)
    ensures StepRules(g, EmptyRules(names)) == EmptyRules(names)
    decreases |names|
  {
    hide VariantRules;
    var rules := EmptyRules(names);
    if names != [] {
      EmptyRulesStay(g, Pre(names));
      EmptyRuleStays(g, Last(names));
      assert Pre(rules) == EmptyRules(Pre(names)) && Last(rules) == Rule(Last(names), []);
      assert rules == Pre(rules) + [Last(rules)];
    } else {
      assert rules == [];
    }
  }

  lemma EmptyRuleStays(g: seq<Rule>, name: string)
    ensures VariantRules(g, Rule(name, [])) == [Rule(name, [])]
  {
  }

  /** A round treats an undefined symbol exactly as a symbol with one empty rule. */
  lemma StepFillsUndefined(g: seq<Rule>, names: seq<string>)
    requires Undefined(g, names)
    ensures Step(Filled(g, names)) == Filled(Step(g), names)
  {
    hide Undefined;
    var f := Filled(g, names);
    StepRulesAppend(f, g, EmptyRules(names));
    FilledStepRules(g, names, g);
    EmptyRulesStay(f, names);
  }

  lemma FilledDefined(g: seq<Rule>, names: seq<string>)
    requires Undefined(g, names)
    ensures AllDefined(Filled(g, names))
  {
    forall rule, s | rule in Filled(g, names) && s in rule.body && s.R?
      ensures Alternatives(Filled(g, names), s.name) != [] {
      FilledAlternatives(g, names, s.name);
    }
  }

  lemma StepAddsNoKey(g: seq<Rule>, key: string)
    ensures Alternatives(Step(g), key) != [] ==> Alternatives(g, key) != []
  {
    var bodies := Alternatives(Step(g), key);
    if bodies != [] {
      assert bodies[0] in bodies;
      var rule, c := FromStep(g, key, bodies[0]);
      assert rule == Rule(key, rule.body);
      assert rule.body in Alternatives(g, key);
    }
  }

  lemma StepKeepsUndefined(g: seq<Rule>, names: seq<string>)
    requires Undefined(g, names)
    ensures Undefined(Step(g), names)
  {
    forall i | 0 <= i < |names| ensures Alternatives(Step(g), names[i]) == [] {
      StepAddsNoKey(g, names[i]);
    }
    forall r, s | r in Step(g) && s in r.body && s.R?
      ensures Alternatives(Step(g), s.name) != [] || s.name in names {
      assert r.body in Alternatives(Step(g), r.key);
      var rule, c := FromStep(g, r.key, r.body);
      VariantSymbols(g, rule.body, c, s);
      UsedSomewhere(g, rule, s);
      AlternativesGrow(g, g, s.name);
    }
  }

  lemma {:induction false} RoundsFillUndefined(g: seq<Rule>, names: seq<string>, n: nat, key: string, w: seq<string>)
    requires Undefined(g, names)
    ensures InLanguage(Filled(Iterate(g, n), names), key, w) <==> InLanguage(Filled(g, names), key, w)
    ensures Undefined(Iterate(g, n), names)
    decreases n
  {
    hide Undefined, Filled, Step, InLanguage;
    if n > 0 {
      StepKeepsUndefined(g, names);
      RoundsFillUndefined(Step(g), names, n - 1, key, w);
      StepFillsUndefined(g, names);
      FilledDefined(g, names);
      StepPreservesLanguage(Filled(g, names), key, w);
    }
  }

  lemma {:induction false} PlainBodyDerives(g: seq<Rule>, h: seq<Rule>, n: nat, body: seq<Sym>, w: seq<string>)
    requires NoRepl(body) && Yields(g, n, body, w)
    ensures Yields(h, n, body, w)
    decreases |body|
  {
    if body != [] {
      var u, v := YieldsUnsnoc(g, n, body, w);
      assert body == Pre(body) + [Last(body)];
      PlainBodyDerives(g, h, n, Pre(body), u);
      YieldsBuild(h, n, body, u, v, w);
    }
  }

  lemma FilledDerivesMore(g: seq<Rule>, names: seq<string>, key: string, w: seq<string>)
    requires InLanguage(g, key, w)
    ensures InLanguage(Filled(g, names), key, w)
  {
    var f := Filled(g, names);
    forall k, b, v | b in Alternatives(g, k) && Derives(f, b, v) ensures NameDerives(f, k, v) {
      assert Rule(k, b) in f;
      DerivesBySymbol(f, k, b, v);
    }
    var b :| b in Alternatives(g, key) && Derives(g, b, w);
    var n: nat :| Yields(g, n, b, w);
    AbsorbedSound(f, g, n, b, w);
    assert Rule(key, b) in f;
  }

  /** Whatever symbols are undefined: rules without replacement symbols that `expand` arrives
      at derive exactly what the rules it started from derive when each undefined symbol is
      read as empty. So no string is lost, and all languages are kept exactly when that reading
      changes none. */
  lemma ExpansionReadsUndefinedAsEmpty(g: seq<Rule>, names: seq<string>, n: nat, key: string, w: seq<string>)
    requires Undefined(g, names) && ReplFree(Iterate(g, n)) && key !in names
    ensures InLanguage(Iterate(g, n), key, w) <==> InLanguage(Filled(g, names), key, w)
    ensures InLanguage(g, key, w) ==> InLanguage(Iterate(g, n), key, w)
  {
    hide Filled, Undefined;
    if InLanguage(g, key, w) { FilledDerivesMore(g, names, key, w); }
    var h := Iterate(g, n);
    RoundsFillUndefined(g, names, n, key, w);
    FilledAlternatives(h, names, key);
    var f := Filled(h, names);
    forall b | b in Alternatives(h, key) ensures Derives(h, b, w) <==> Derives(f, b, w) {
      assert Rule(key, b) in h;
      if Derives(h, b, w) { var m: nat :| Yields(h, m, b, w); PlainBodyDerives(h, f, m, b, w); }
      if Derives(f, b, w) { var m: nat :| Yields(f, m, b, w); PlainBodyDerives(f, h, m, b, w); }
    }
  }
}
