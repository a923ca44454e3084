/** When rounds of expansion never come to an end: symbols with two rules lead to each other
    again and again, and one of them stands before an ambiguous symbol in some body, which is
    then put off in every round that follows. */
module CfgCycles {
  import opened Cfg

  /** A body uses one of the names. */
  ghost predicate Uses(body: seq<Sym>, names: set<string>) {
    exists s :: s in body && s.R? && s.name in names
  }

  ghost predicate Sustained(g: seq<Rule>, names: set<string>, name: string) {
    |Alternatives(g, name)| >= 2 && exists b :: b in Alternatives(g, name) && Uses(b, names)
  }

  /** Each of the names has at least two rules, one of which uses one of the names again. */
  ghost predicate Sustaining(g: seq<Rule>, names: set<string>) {
    forall name :: name in names ==> Sustained(g, names, name)
  }

  lemma SustainedAlternative(g: seq<Rule>, names: set<string>, name: string) returns (b: seq<Sym>, k: nat)
    requires Sustained(g, names, name)
    ensures |Alternatives(g, name)| >= 2 && b in Alternatives(g, name) && Uses(b, names)
    ensures k < |Alternatives(g, name)| && Alternatives(g, name)[k] == b
  {
    hide Uses;
    b :| b in Alternatives(g, name) && Uses(b, names);
    k :| 0 <= k < |Alternatives(g, name)| && Alternatives(g, name)[k] == b;
  }

  /** One of the names stands before an ambiguous symbol. */
  ghost predicate Blocked(g: seq<Rule>, body: seq<Sym>, names: set<string>) {
    body != [] && (Blocked(g, Pre(body), names) || (Uses(Pre(body), names) && Ambiguous(g, Last(body))))
  }

  ghost predicate Stuck(g: seq<Rule>, names: set<string>) {
    Sustaining(g, names) && exists rule :: rule in g && Blocked(g, rule.body, names)
  }

  lemma UsesWide(g: seq<Rule>, body: seq<Sym>, names: set<string>)
    requires Sustaining(g, names) && Uses(body, names)
    ensures Width(g, body) > 1
  {
    hide Sustained, Alternatives, Width;
    var s :| s in body && s.R? && s.name in names;
    var b, k := SustainedAlternative(g, names, s.name);
    SplitIffWide(g, body);
  }

  lemma UsesParts(a: seq<Sym>, b: seq<Sym>, names: set<string>)
    ensures Uses(a + b, names) <==> Uses(a, names) || Uses(b, names)
  {
  }

  /** A round keeps one of the names in some new body. */
  lemma {:induction false} SustainedVariant(g: seq<Rule>, names: set<string>, body: seq<Sym>) returns (c: nat)
    requires Sustaining(g, names) && Uses(body, names)
    ensures c < Width(g, body) && Uses(Variant(g, body, c), names)
    decreases |body|
  {
    hide Uses, Sustaining;
    UsedPart(body, names);
    var s, split := Last(body), Width(g, Pre(body)) > 1;
    UsesParts(Pre(body), [s], names);
    if Uses(Pre(body), names) {
      c := SustainedVariant(g, names, Pre(body));
      UsesWide(g, Pre(body), names);
      UsesParts(Variant(g, Pre(body), c), Piece(g, s, true, c), names);
    } else {
      var k := UsingAlternative(g, names, s);
      c := if split then 0 else k;
      UsesParts(Variant(g, Pre(body), if split then c else 0), Piece(g, s, split, c), names);
    }
  }

  lemma UsedPart(body: seq<Sym>, names: set<string>)
    ensures Uses(body, names) ==> body != []
    ensures body != [] ==> body == Pre(body) + [Last(body)]
  {
  }

  lemma OneUsed(s: Sym, names: set<string>)
    ensures Uses([s], names) <==> s.R? && s.name in names
  {
    assert s in [s];
  }

  lemma UsingAlternative(g: seq<Rule>, names: set<string>, s: Sym) returns (k: nat)
    requires Sustaining(g, names) && Uses([s], names)
    ensures Ambiguous(g, s) && k < |Alternatives(g, s.name)| && Uses(Alternatives(g, s.name)[k], names)
  {
    hide Sustained, Alternatives;
    OneUsed(s, names);
    var b;
    b, k := SustainedAlternative(g, names, s.name);
  }

  lemma {:induction false} BlockedBehind(g: seq<Rule>, a: seq<Sym>, b: seq<Sym>, names: set<string>)
    requires Blocked(g, a, names)
    ensures Blocked(g, a + b, names)
    decreases |b|
  {
    if b == [] {
      assert a + b == a;
    } else {
      BlockedBehind(g, a, Pre(b), names);
      PreLastAppend(a, b);
    }
  }

  /** ... and before the same ambiguous symbol, which has to wait. */
  lemma {:induction false} BlockedVariant(g: seq<Rule>, names: set<string>, body: seq<Sym>) returns (c: nat)
    requires Sustaining(g, names) && Blocked(g, body, names)
    ensures c < Width(g, body) && Blocked(Step(g), Variant(g, body, c), names)
    decreases |body|
  {
    hide Uses, Sustaining, Step;
    if Blocked(g, Pre(body), names) {
      c := BlockedVariant(g, names, Pre(body));
      BlockedWide(g, names, Pre(body));
      BlockedBehind(Step(g), Variant(g, Pre(body), c), Piece(g, Last(body), true, c), names);
    } else {
      c := SustainedVariant(g, names, Pre(body));
      UsesWide(g, Pre(body), names);
      var a, s := Variant(g, Pre(body), c), Last(body);
      StepGrows(g, s.name);
      PreLastAppend(a, [s]);
      assert Pre([s]) == [] && a + [] == a;
      assert Variant(g, body, c) == a + [s];
    }
  }

  lemma {:induction false} BlockedWide(g: seq<Rule>, names: set<string>, body: seq<Sym>)
    requires Sustaining(g, names) && Blocked(g, body, names)
    ensures Width(g, body) > 1 && Deferred(g, body)
    decreases |body|
  {
    hide Uses, Sustaining;
    if Blocked(g, Pre(body), names) {
      BlockedWide(g, names, Pre(body));
    } else {
      UsesWide(g, Pre(body), names);
    }
  }

  lemma StepSustains(g: seq<Rule>, names: set<string>)
    requires Sustaining(g, names)
    ensures Sustaining(Step(g), names)
  {
    hide Sustained, Uses, Alternatives;
    forall name | name in names ensures Sustained(Step(g), names, name) {
      var b, k := SustainedAlternative(g, names, name);
      var c := SustainedVariant(g, names, b);
      StepGrows(g, name);
      StepContains(g, Rule(name, b), c);
      SustainedBy(Step(g), names, name, Variant(g, b, c));
    }
  }

  lemma SustainedBy(g: seq<Rule>, names: set<string>, name: string, b: seq<Sym>)
    requires |Alternatives(g, name)| >= 2 && Rule(name, b) in g && Uses(b, names)
    ensures Sustained(g, names, name)
  {
    hide Uses;
    assert b in Alternatives(g, name);
  }

  lemma StepStaysStuck(g: seq<Rule>, names: set<string>)
    requires Stuck(g, names)
    ensures Stuck(Step(g), names) && !Complete(g)
  {
    hide Sustaining, Blocked, Deferred, Step;
    StepSustains(g, names);
    var rule :| rule in g && Blocked(g, rule.body, names);
    var c := BlockedVariant(g, names, rule.body);
    StepContains(g, rule, c);
    assert Rule(rule.key, Variant(g, rule.body, c)) in Step(g);
    BlockedWide(g, names, rule.body);
  }

  lemma {:induction false} IterateStaysStuck(g: seq<Rule>, names: set<string>, n: nat)
    requires Stuck(g, names)
    ensures Stuck(Iterate(g, n), names)
    decreases n
  {
    hide Stuck, Step;
    if n > 0 {
      StepStaysStuck(g, names);
      IterateStaysStuck(Step(g), names, n - 1);
    }
  }

  /** Acyclicity is not a formality: where symbols with two rules lead to each other again, and
      one of them stands before an ambiguous symbol in any body, that symbol waits for its turn
      in vain; every round stays incomplete and `expand` never returns. */
  lemma CyclicNeverCompletes(g: seq<Rule>, names: set<string>, n: nat)
    requires Stuck(g, names)
    ensures !Complete(Iterate(g, n))
  {
    hide Stuck, Complete, Iterate;
    IterateStaysStuck(g, names, n);
    StepStaysStuck(Iterate(g, n), names);
  }

  /** A cycle alone does not do it: with one ambiguous symbol a body nothing has to wait. */
  lemma CyclicMayComplete()
    ensures var g := [Rule("s-all", [R("r-a")]), Rule("r-a", [R("r-a"), T("d-x")]), Rule("r-a", [T("d-y")])];
            Sustaining(g, {"r-a"}) && Complete(g)
  {
    var g := [Rule("s-all", [R("r-a")]), Rule("r-a", [R("r-a"), T("d-x")]), Rule("r-a", [T("d-y")])];
    AlternativesOf3(g[0], g[1], g[2], "r-a");
    assert R("r-a") in g[1].body;
    SustainedBy(g, {"r-a"}, "r-a", g[1].body);
    forall i | 0 <= i < |g| ensures !Deferred(g, g[i].body) {
      assert i == 1 ==> Pre(g[i].body) == [R("r-a")] && Last(g[i].body) == T("d-x");
      assert Pre([R("r-a")]) == [];
    }
  }

  /** The case of one symbol used by a rule of its own, and twice by any body. */
  lemma DoublingIsStuck(g: seq<Rule>, name: string, rule: Rule, i: nat, j: nat)
    requires |Alternatives(g, name)| >= 2 && exists b :: b in Alternatives(g, name) && R(name) in b
    requires rule in g && i < j < |rule.body| && rule.body[i] == rule.body[j] == R(name)
    ensures Stuck(g, {name})
  {
    BlockedAt(g, rule.body, {name}, i, j);
    var b :| b in Alternatives(g, name) && R(name) in b;
    SustainedBy(g, {name}, name, b);
  }

  lemma {:induction false} BlockedAt(g: seq<Rule>, body: seq<Sym>, names: set<string>, i: nat, j: nat)
    requires i < j < |body| && body[i].R? && body[i].name in names && Ambiguous(g, body[j])
    ensures Blocked(g, body, names)
    decreases |body|
  {
    if j < |body| - 1 {
      BlockedAt(g, Pre(body), names, i, j);
    } else {
      assert body[i] in Pre(body);
    }
  }
}
