/** Rule sets, reduced to what their language depends on. */
module Cfg {

  /** A symbol is a terminal key or a replacement symbol; one round of expansion rewrites
      every body from the rules of the round before. */
  datatype Sym = T(name: string) | R(name: string)
  datatype Rule = Rule(key: string, body: seq<Sym>)

  function Pre<X>(s: seq<X>): seq<X>
    requires s != []
  {
    s[..|s| - 1]
  }

  function Last<X>(s: seq<X>): X
    requires s != []
  {
    s[|s| - 1]
  }

  lemma PreLastAppend<X>(a: seq<X>, b: seq<X>)
    requires b != []
    ensures Pre(a + b) == a + Pre(b) && Last(a + b) == Last(b)
  {
  }

  /** The bodies stored under a key, in iteration order. */
  function Alternatives(g: seq<Rule>, key: string): (bodies: seq<seq<Sym>>)
    ensures forall b :: b in bodies <==> Rule(key, b) in g
  {
    if g == [] then []
    else
      var rest := Alternatives(g[1..], key);
      assert g == [g[0]] + g[1..];
      if g[0].key == key then [g[0].body] + rest else rest
  }

  // ---- the language ------------------------------------------------------------

  /** `body` derives the terminal keys `w` with replacements nested at most `n` deep. */
  ghost predicate Yields(g: seq<Rule>, n: nat, body: seq<Sym>, w: seq<string>)
    decreases n, |body|, 1
  {
    if body == [] then w == []
    else exists u, v :: w == u + v && Yields(g, n, Pre(body), u) && SymYields(g, n, Last(body), v)
  }

  ghost predicate SymYields(g: seq<Rule>, n: nat, s: Sym, w: seq<string>)
    decreases n, 0, 0
  {
    match s
    case T(name) => w == [name]
    case R(name) => n > 0 && exists b :: b in Alternatives(g, name) && Yields(g, n - 1, b, w)
  }

  ghost predicate Derives(g: seq<Rule>, body: seq<Sym>, w: seq<string>) {
    exists n: nat :: Yields(g, n, body, w)
  }

  /** The replacement-free key strings derived from the rules stored under `key`. */
  ghost predicate InLanguage(g: seq<Rule>, key: string, w: seq<string>) {
    exists b :: b in Alternatives(g, key) && Derives(g, b, w)
  }

  lemma {:induction false} YieldsMono(g: seq<Rule>, n: nat, m: nat, body: seq<Sym>, w: seq<string>)
    requires n <= m && Yields(g, n, body, w)
    ensures Yields(g, m, body, w)
    decreases n, |body|
  {
    if body != [] {
      var u, v :| w == u + v && Yields(g, n, Pre(body), u) && SymYields(g, n, Last(body), v);
      YieldsMono(g, n, m, Pre(body), u);
      if Last(body).R? {
        var b :| b in Alternatives(g, Last(body).name) && Yields(g, n - 1, b, v);
        YieldsMono(g, n - 1, m - 1, b, v);
      }
      assert SymYields(g, m, Last(body), v);
    }
  }

  lemma YieldsBuild(g: seq<Rule>, n: nat, body: seq<Sym>, u: seq<string>, v: seq<string>, w: seq<string>)
    requires body != [] && w == u + v
    requires Yields(g, n, Pre(body), u) && SymYields(g, n, Last(body), v)
    ensures Yields(g, n, body, w)
  {
  }

  lemma YieldsUnsnoc(g: seq<Rule>, n: nat, body: seq<Sym>, w: seq<string>)
    returns (u: seq<string>, v: seq<string>)
    requires body != [] && Yields(g, n, body, w)
    ensures w == u + v && Yields(g, n, Pre(body), u) && SymYields(g, n, Last(body), v)
  {
    u, v :| w == u + v && Yields(g, n, Pre(body), u) && SymYields(g, n, Last(body), v);
  }

  lemma Assoc<X>(a: seq<X>, b: seq<X>, c: seq<X>)
    ensures (a + b) + c == a + (b + c)
  {
  }

  lemma {:induction false} YieldsAppend(g: seq<Rule>, n: nat, a: seq<Sym>, b: seq<Sym>,
                                        u: seq<string>, v: seq<string>)
    requires Yields(g, n, a, u) && Yields(g, n, b, v)
    ensures Yields(g, n, a + b, u + v)
    decreases |b|
  {
    if b == [] {
      assert a + b == a && u + v == u;
    } else {
      var x, y := YieldsUnsnoc(g, n, b, v);
      YieldsAppend(g, n, a, Pre(b), u, x);
      PreLastAppend(a, b);
      Assoc(u, x, y);
      YieldsBuild(g, n, a + b, u + x, y, u + v);
    }
  }

  lemma {:induction false} YieldsSplit(g: seq<Rule>, n: nat, a: seq<Sym>, b: seq<Sym>, w: seq<string>)
    returns (u: seq<string>, v: seq<string>)
    requires Yields(g, n, a + b, w)
    ensures w == u + v && Yields(g, n, a, u) && Yields(g, n, b, v)
    decreases |b|
  {
    if b == [] {
      assert a + b == a;
      u, v := w, [];
    } else {
      var x, y := YieldsUnsnoc(g, n, a + b, w);
      PreLastAppend(a, b);
      var u0, v0 := YieldsSplit(g, n, a, Pre(b), x);
      Assoc(u0, v0, y);
      YieldsBuild(g, n, b, v0, y, v0 + y);
      u, v := u0, v0 + y;
    }
  }

  lemma YieldsSingle(g: seq<Rule>, n: nat, s: Sym, w: seq<string>)
    ensures Yields(g, n, [s], w) <==> SymYields(g, n, s, w)
  {
    assert Pre([s]) == [] && Last([s]) == s;
    if SymYields(g, n, s, w) {
      assert w == [] + w && Yields(g, n, [], []);
    }
    if Yields(g, n, [s], w) {
      var u, v :| w == u + v && Yields(g, n, Pre([s]), u) && SymYields(g, n, Last([s]), v);
      assert u + v == v;
    }
  }

  // ---- one round of expansion --------------------------------------------------

  predicate Ambiguous(g: seq<Rule>, s: Sym) {
    s.R? && |Alternatives(g, s.name)| >= 2
  }

  /** How many new bodies one body becomes: the alternatives of its first ambiguous
      symbol, or one. */
  function Width(g: seq<Rule>, body: seq<Sym>): (n: nat)
    ensures n >= 1
  {
    if body == [] then 1
    else if Width(g, Pre(body)) == 1 && Ambiguous(g, Last(body)) then |Alternatives(g, Last(body).name)|
    else Width(g, Pre(body))
  }

  /** What one symbol turns into in the `c`-th new body, given whether the body was
      split by an earlier ambiguous symbol. */
  function Piece(g: seq<Rule>, s: Sym, split: bool, c: nat): seq<Sym>
    requires Ambiguous(g, s) && !split ==> c < |Alternatives(g, s.name)|
  {
    match s
    case T(_) => [s]
    case R(name) =>
      var alternatives := Alternatives(g, name);
      if |alternatives| == 0 then []
      else if |alternatives| == 1 then alternatives[0]
      else if split then [s]
      else alternatives[c]
  }

  /** The `c`-th new body of `body`. */
  function Variant(g: seq<Rule>, body: seq<Sym>, c: nat): seq<Sym>
    requires c < Width(g, body)
  {
    if body == [] then []
    else
      var split := Width(g, Pre(body)) > 1;
      Variant(g, Pre(body), if split then c else 0) + Piece(g, Last(body), split, c)
  }

  /** Does the round leave an ambiguous symbol of `body` for the next one? */
  predicate Deferred(g: seq<Rule>, body: seq<Sym>) {
    body != [] &&
    (Deferred(g, Pre(body)) || (Width(g, Pre(body)) > 1 && Ambiguous(g, Last(body))))
  }

  function VariantRules(g: seq<Rule>, rule: Rule): (rs: seq<Rule>)
    ensures |rs| == Width(g, rule.body)
  {
    seq(Width(g, rule.body), c requires 0 <= c < Width(g, rule.body) =>
      Rule(rule.key, Variant(g, rule.body, c)))
  }

  function StepRules(g: seq<Rule>, rules: seq<Rule>): seq<Rule> {
    if rules == [] then [] else StepRules(g, Pre(rules)) + VariantRules(g, Last(rules))
  }

  /** The rules after one round. */
  function Step(g: seq<Rule>): seq<Rule> {
    StepRules(g, g)
  }

  predicate Complete(g: seq<Rule>) {
    forall i :: 0 <= i < |g| ==> !Deferred(g, g[i].body)
  }

  ghost predicate IsVariant(g: seq<Rule>, rule: Rule, c: int, r: Rule) {
    0 <= c < Width(g, rule.body) && r == Rule(rule.key, Variant(g, rule.body, c))
  }

  lemma {:induction false} InStepRules(g: seq<Rule>, rules: seq<Rule>, r: Rule)
    ensures r in StepRules(g, rules) <==> exists rule, c :: rule in rules && IsVariant(g, rule, c, r)
    decreases |rules|
  {
    if rules != [] {
      InStepRules(g, Pre(rules), r);
      assert rules == Pre(rules) + [Last(rules)];
      var news := VariantRules(g, Last(rules));
      if r in news {
        var c :| 0 <= c < |news| && r == news[c];
        assert IsVariant(g, Last(rules), c, r);
      }
      forall rule, c | rule in rules && IsVariant(g, rule, c, r)
        ensures r in StepRules(g, rules)
      {
        if rule == Last(rules) { assert r == news[c]; } else { assert rule in Pre(rules); }
      }
    }
  }

  lemma FromStep(g: seq<Rule>, key: string, b: seq<Sym>) returns (rule: Rule, c: nat)
    requires b in Alternatives(Step(g), key)
    ensures rule in g && rule.key == key && c < Width(g, rule.body) && b == Variant(g, rule.body, c)
  {
    InStepRules(g, g, Rule(key, b));
    var rule0, c0 :| rule0 in g && IsVariant(g, rule0, c0, Rule(key, b));
    rule, c := rule0, c0;
  }

  /** Every replacement symbol in use has a rule. */
  ghost predicate AllDefined(g: seq<Rule>) {
    forall rule :: rule in g ==> BodyDefined(g, rule.body)
  }

  ghost predicate BodyDefined(g: seq<Rule>, body: seq<Sym>) {
    forall s :: s in body && s.R? ==> Alternatives(g, s.name) != []
  }

  // ---- a round preserves the language ------------------------------------------

  lemma PieceSound(g: seq<Rule>, s: Sym, split: bool, c: nat, n: nat, v: seq<string>)
    requires Ambiguous(g, s) && !split ==> c < |Alternatives(g, s.name)|
    requires s.R? ==> Alternatives(g, s.name) != []
    requires Yields(g, n, Piece(g, s, split, c), v)
    ensures SymYields(g, n + 1, s, v)
  {
    var piece := Piece(g, s, split, c);
    if piece == [s] {
      YieldsMono(g, n, n + 1, [s], v);
      YieldsSingle(g, n + 1, s, v);
    } else {
      assert piece in Alternatives(g, s.name);
    }
  }

  lemma VariantUnfold(g: seq<Rule>, body: seq<Sym>, c: nat) returns (a: seq<Sym>, c': nat, piece: seq<Sym>)
    requires body != [] && c < Width(g, body)
    ensures c' == (if Width(g, Pre(body)) > 1 then c else 0) < Width(g, Pre(body))
    ensures Ambiguous(g, Last(body)) && Width(g, Pre(body)) == 1 ==> c < |Alternatives(g, Last(body).name)|
    ensures a == Variant(g, Pre(body), c') && piece == Piece(g, Last(body), Width(g, Pre(body)) > 1, c)
    ensures Variant(g, body, c) == a + piece
  {
    c' := if Width(g, Pre(body)) > 1 then c else 0;
    a, piece := Variant(g, Pre(body), c'), Piece(g, Last(body), Width(g, Pre(body)) > 1, c);
  }

  lemma BodyParts(g: seq<Rule>, body: seq<Sym>)
    ensures body != [] && BodyDefined(g, body) ==>
              BodyDefined(g, Pre(body)) && (Last(body).R? ==> Alternatives(g, Last(body).name) != [])
  {
    if body != [] { assert body == Pre(body) + [Last(body)]; }
  }

  lemma {:induction false} VariantSound(g: seq<Rule>, body: seq<Sym>, c: nat, n: nat, w: seq<string>)
    requires c < Width(g, body) && Yields(g, n, Variant(g, body, c), w)
    requires BodyDefined(g, body)
    ensures Yields(g, n + 1, body, w)
    decreases |body|
  {
    hide Piece, Alternatives, SymYields, BodyDefined, Width;
    BodyParts(g, body);
    if body != [] {
      var a, c', piece := VariantUnfold(g, body, c);
      var u, v := YieldsSplit(g, n, a, piece, w);
      VariantSound(g, Pre(body), c', n, u);
      PieceSound(g, Last(body), Width(g, Pre(body)) > 1, c, n, v);
      YieldsBuild(g, n + 1, body, u, v, w);
    }
  }

  lemma PieceComplete(g: seq<Rule>, s: Sym, split: bool, c': nat, n: nat, v: seq<string>)
    returns (c: nat)
    requires SymYields(g, n, s, v)
    ensures split || !Ambiguous(g, s) ==> c == c'
    ensures Ambiguous(g, s) && !split ==> c < |Alternatives(g, s.name)|
    ensures Yields(g, n, Piece(g, s, split, c), v)
  {
    c := c';
    if s.R? && !(split && Ambiguous(g, s)) {
      var b :| b in Alternatives(g, s.name) && Yields(g, n - 1, b, v);
      var k :| 0 <= k < |Alternatives(g, s.name)| && Alternatives(g, s.name)[k] == b;
      YieldsMono(g, n - 1, n, b, v);
      c := if Ambiguous(g, s) then k else c';
      assert Piece(g, s, split, c) == b;
    } else {
      YieldsSingle(g, n, s, v);
    }
  }

  lemma {:induction false} VariantComplete(g: seq<Rule>, body: seq<Sym>, n: nat, w: seq<string>)
    returns (c: nat)
    requires Yields(g, n, body, w)
    ensures c < Width(g, body) && Yields(g, n, Variant(g, body, c), w)
    decreases |body|
  {
    if body == [] {
      c := 0;
      assert Variant(g, body, c) == body;
    } else {
      var u, v := YieldsUnsnoc(g, n, body, w);
      var c' := VariantComplete(g, Pre(body), n, u);
      var split := Width(g, Pre(body)) > 1;
      c := PieceComplete(g, Last(body), split, c', n, v);
      var a, c'', piece := VariantUnfold(g, body, c);
      assert c'' == c';
      YieldsAppend(g, n, a, piece, u, v);
    }
  }

  lemma DerivesAppend(g: seq<Rule>, a: seq<Sym>, b: seq<Sym>, u: seq<string>, v: seq<string>)
    requires Derives(g, a, u) && Derives(g, b, v)
    ensures Derives(g, a + b, u + v)
  {
    var n: nat :| Yields(g, n, a, u);
    var m: nat :| Yields(g, m, b, v);
    var k := if n < m then m else n;
    YieldsMono(g, n, k, a, u);
    YieldsMono(g, m, k, b, v);
    YieldsAppend(g, k, a, b, u, v);
  }

  lemma DerivesBySymbol(g: seq<Rule>, name: string, b: seq<Sym>, w: seq<string>)
    requires Rule(name, b) in g && Derives(g, b, w)
    ensures Derives(g, [R(name)], w) && InLanguage(g, name, w)
  {
    var n: nat :| Yields(g, n, b, w);
    assert b in Alternatives(g, name);
    assert SymYields(g, n + 1, R(name), w);
    YieldsSingle(g, n + 1, R(name), w);
  }

  lemma VariantDerives(g: seq<Rule>, key: string, b': seq<Sym>, w: seq<string>)
    requires AllDefined(g) && b' in Alternatives(Step(g), key) && Derives(g, b', w)
    ensures Derives(g, [R(key)], w) && InLanguage(g, key, w)
  {
    var rule, c := FromStep(g, key, b');
    var m: nat :| Yields(g, m, b', w);
    VariantSound(g, rule.body, c, m, w);
    assert rule == Rule(key, rule.body);
    DerivesBySymbol(g, key, rule.body, w);
  }

  /** Whatever a body of `h` derives in `g`, its key derives in `g`. */
  ghost predicate Absorbs(g: seq<Rule>, h: seq<Rule>) {
    forall key, b, w :: b in Alternatives(h, key) && Derives(g, b, w) ==> NameDerives(g, key, w)
  }

  ghost predicate NameDerives(g: seq<Rule>, name: string, w: seq<string>) {
    Derives(g, [R(name)], w)
  }

  lemma {:induction false} AbsorbedSound(g: seq<Rule>, h: seq<Rule>, n: nat, body: seq<Sym>, w: seq<string>)
    requires Absorbs(g, h) && Yields(h, n, body, w)
    ensures Derives(g, body, w)
    decreases n, |body|
  {
    if body == [] {
      assert Yields(g, 0, body, w);
    } else {
      var u, v := YieldsUnsnoc(h, n, body, w);
      AbsorbedSound(g, h, n, Pre(body), u);
      var s := Last(body);
      if s.R? {
        var b :| b in Alternatives(h, s.name) && Yields(h, n - 1, b, v);
        AbsorbedSound(g, h, n - 1, b, v);
        assert NameDerives(g, s.name, v);
      } else {
        YieldsSingle(g, 0, s, v);
      }
      DerivesAppend(g, Pre(body), [s], u, v);
      assert body == Pre(body) + [s];
    }
  }

  lemma StepSound(g: seq<Rule>, n: nat, body: seq<Sym>, w: seq<string>)
    requires AllDefined(g) && Yields(Step(g), n, body, w)
    ensures Derives(g, body, w)
  {
    forall key, b, w | b in Alternatives(Step(g), key) && Derives(g, b, w)
      ensures NameDerives(g, key, w)
    {
      VariantDerives(g, key, b, w);
    }
    AbsorbedSound(g, Step(g), n, body, w);
  }

  lemma {:induction false} StepComplete(g: seq<Rule>, n: nat, body: seq<Sym>, w: seq<string>)
    requires Yields(g, n, body, w)
    ensures Derives(Step(g), body, w)
    decreases n, |body|
  {
    if body == [] {
      assert Yields(Step(g), 0, body, w);
    } else {
      var u, v := YieldsUnsnoc(g, n, body, w);
      StepComplete(g, n, Pre(body), u);
      var s := Last(body);
      if s.R? {
        var b :| b in Alternatives(g, s.name) && Yields(g, n - 1, b, v);
        var c := VariantComplete(g, b, n - 1, v);
        StepComplete(g, n - 1, Variant(g, b, c), v);
        StepContains(g, Rule(s.name, b), c);
        DerivesBySymbol(Step(g), s.name, Variant(g, b, c), v);
      } else {
        YieldsSingle(Step(g), 0, s, v);
      }
      DerivesAppend(Step(g), Pre(body), [s], u, v);
      assert body == Pre(body) + [s];
    }
  }

  lemma StepContains(g: seq<Rule>, rule: Rule, c: nat)
    requires rule in g && c < Width(g, rule.body)
    ensures Rule(rule.key, Variant(g, rule.body, c)) in Step(g)
  {
    var r := Rule(rule.key, Variant(g, rule.body, c));
    InStepRules(g, g, r);
    assert IsVariant(g, rule, c, r);
  }

  /** One round keeps, for every rule key, exactly the replacement-free key strings it
      derives: bodies are only partly expanded, and all rules change at once. */
  lemma StepPreservesLanguage(g: seq<Rule>, key: string, w: seq<string>)
    requires AllDefined(g)
    ensures InLanguage(Step(g), key, w) <==> InLanguage(g, key, w)
  {
    if InLanguage(Step(g), key, w) {
      var b' :| b' in Alternatives(Step(g), key) && Derives(Step(g), b', w);
      var n: nat :| Yields(Step(g), n, b', w);
      StepSound(g, n, b', w);
      VariantDerives(g, key, b', w);
    }
    if InLanguage(g, key, w) {
      var b :| b in Alternatives(g, key) && Derives(g, b, w);
      var n: nat :| Yields(g, n, b, w);
      var c := VariantComplete(g, b, n, w);
      StepComplete(g, n, Variant(g, b, c), w);
      StepContains(g, Rule(key, b), c);
      assert Variant(g, b, c) in Alternatives(Step(g), key);
    }
  }

  /** A symbol of a new body was there before, or came in with an alternative of one. */
  ghost predicate ComesFrom(g: seq<Rule>, body: seq<Sym>, x: Sym) {
    x in body || exists s, b :: s in body && s.R? && b in Alternatives(g, s.name) && x in b
  }

  lemma {:induction false} VariantSymbols(g: seq<Rule>, body: seq<Sym>, c: nat, x: Sym)
    requires c < Width(g, body) && x in Variant(g, body, c)
    ensures ComesFrom(g, body, x)
    decreases |body|
  {
    if body != [] {
      var split := Width(g, Pre(body)) > 1;
      var c', piece := if split then c else 0, Piece(g, Last(body), split, c);
      assert body == Pre(body) + [Last(body)];
      if x in Variant(g, Pre(body), c') {
        VariantSymbols(g, Pre(body), c', x);
      } else if piece != [Last(body)] {
        assert piece in Alternatives(g, Last(body).name);
      }
    }
  }

  lemma UsedSomewhere(g: seq<Rule>, rule: Rule, x: Sym)
    requires rule in g && ComesFrom(g, rule.body, x)
    ensures exists user :: user in g && x in user.body
  {
    if x !in rule.body {
      var s, b :| s in rule.body && s.R? && b in Alternatives(g, s.name) && x in b;
      assert Rule(s.name, b) in g;
    }
  }

  /** A round defines the same keys as before, so nothing becomes undefined. */
  lemma StepKeepsDefined(g: seq<Rule>)
    requires AllDefined(g)
    ensures AllDefined(Step(g))
  {
    forall r, s | r in Step(g) && s in r.body && s.R?
      ensures Alternatives(Step(g), s.name) != []
    {
      assert r.body in Alternatives(Step(g), r.key);
      var rule, c := FromStep(g, r.key, r.body);
      VariantSymbols(g, rule.body, c, s);
      UsedSomewhere(g, rule, s);
      var b := Alternatives(g, s.name)[0];
      assert b in Alternatives(g, s.name);
      StepContains(g, Rule(s.name, b), 0);
      assert Variant(g, b, 0) in Alternatives(Step(g), s.name);
    }
  }

  /** The hypothesis is needed: an undefined replacement symbol is silently dropped, and
      its rule then derives a string it did not derive before. */
  lemma UndefinedSymbolChangesLanguage()
    ensures var g := [Rule("s-a", [T("d-x"), R("r-none")])];
            !AllDefined(g) && !InLanguage(g, "s-a", ["d-x"]) && InLanguage(Step(g), "s-a", ["d-x"])
  {
    var body := [T("d-x"), R("r-none")];
    var g := [Rule("s-a", body)];
    assert body[1] in body && Alternatives(g, "r-none") == [] && g[0] in g;
    assert g[1..] == [];
    assert Pre(body) == [T("d-x")] && Last(body) == R("r-none");
    assert Pre(Pre(body)) == [] && Last(Pre(body)) == T("d-x");
    if InLanguage(g, "s-a", ["d-x"]) {
      var b :| b in Alternatives(g, "s-a") && Derives(g, b, ["d-x"]);
      assert Rule("s-a", b) in g && b == body;
      var n: nat :| Yields(g, n, b, ["d-x"]);
      var u, v := YieldsUnsnoc(g, n, b, ["d-x"]);
      assert false;
    }
    assert Variant(g, Pre(body), 0) == [] + [T("d-x")];
    assert Piece(g, R("r-none"), false, 0) == [];
    assert Variant(g, body, 0) == [T("d-x")];
    StepContains(g, g[0], 0);
    YieldsSingle(Step(g), 0, T("d-x"), ["d-x"]);
    assert [T("d-x")] in Alternatives(Step(g), "s-a");
  }

  // ---- when a complete round leaves no replacement symbol ----------------------

  ghost predicate NoRepl(body: seq<Sym>) {
    forall s :: s in body ==> s.T?
  }

  ghost predicate ReplFree(g: seq<Rule>) {
    forall rule :: rule in g ==> NoRepl(rule.body)
  }

  /** No replacement symbol that some body uses has an alternative with another one. */
  ghost predicate Shallow(g: seq<Rule>) {
    forall rule, s, b :: rule in g && s in rule.body && s.R? && b in Alternatives(g, s.name) ==> NoRepl(b)
  }

  lemma {:induction false} SplitIffWide(g: seq<Rule>, body: seq<Sym>)
    ensures Width(g, body) > 1 <==> exists s :: s in body && Ambiguous(g, s)
    decreases |body|
  {
    if body != [] {
      SplitIffWide(g, Pre(body));
      assert body == Pre(body) + [Last(body)];
      assert forall s :: s in body <==> s in Pre(body) || s == Last(body);
    }
  }

  lemma {:induction false} ShallowVariantFree(g: seq<Rule>, body: seq<Sym>, c: nat)
    requires c < Width(g, body) && !Deferred(g, body)
    requires forall s, b :: s in body && s.R? && b in Alternatives(g, s.name) ==> NoRepl(b)
    ensures NoRepl(Variant(g, body, c))
    decreases |body|
  {
    if body != [] {
      var split := Width(g, Pre(body)) > 1;
      assert body == Pre(body) + [Last(body)];
      ShallowVariantFree(g, Pre(body), if split then c else 0);
      var piece := Piece(g, Last(body), split, c);
      assert Last(body).R? && piece != [] ==> piece in Alternatives(g, Last(body).name);
      assert Last(body) in body;
      assert NoRepl(piece);
      forall x | x in Variant(g, body, c) ensures x.T? {
        assert x in Variant(g, Pre(body), if split then c else 0) || x in piece;
      }
    }
  }

  /** Every alternative of every symbol of a body shows up whole in some new body. */
  lemma {:induction false} AlternativeAppears(g: seq<Rule>, body: seq<Sym>, s: Sym, b: seq<Sym>) returns (c: nat)
    requires !Deferred(g, body) && s in body && s.R? && b in Alternatives(g, s.name)
    ensures c < Width(g, body) && forall x :: x in b ==> x in Variant(g, body, c)
    decreases |body|
  {
    var split := Width(g, Pre(body)) > 1;
    assert body == Pre(body) + [Last(body)];
    var k :| 0 <= k < |Alternatives(g, s.name)| && Alternatives(g, s.name)[k] == b;
    if s == Last(body) && !(split && Ambiguous(g, s)) {
      c := if Ambiguous(g, s) then k else 0;
      assert Piece(g, s, split, c) == b;
    } else {
      c := AlternativeAppears(g, Pre(body), s, b);
      SplitIffWide(g, Pre(body));
    }
  }

  /** `expand_step` reports completion when no ambiguous symbol was put off; the rules
      are then free of replacement symbols exactly when they were only nested one deep. */
  lemma CompleteStepReplFree(g: seq<Rule>)
    requires Complete(g)
    ensures ReplFree(Step(g)) <==> Shallow(g)
  {
    if Shallow(g) {
      forall r | r in Step(g) ensures NoRepl(r.body) {
        assert r.body in Alternatives(Step(g), r.key);
        var rule, c := FromStep(g, r.key, r.body);
        ShallowVariantFree(g, rule.body, c);
      }
    }
    if ReplFree(Step(g)) {
      forall rule, s, b | rule in g && s in rule.body && s.R? && b in Alternatives(g, s.name)
        ensures NoRepl(b)
      {
        var c := AlternativeAppears(g, rule.body, s, b);
        StepContains(g, rule, c);
      }
    }
  }

  lemma FreeStaysFree(g: seq<Rule>, body: seq<Sym>, c: nat)
    requires NoRepl(body) && c < Width(g, body)
    ensures NoRepl(Variant(g, body, c))
  {
    forall x | x in Variant(g, body, c) ensures x.T? {
      VariantSymbols(g, body, c, x);
    }
  }

  lemma UsedBefore(g: seq<Rule>, rule: Rule, x: Sym)
    requires Shallow(g) && rule in g && ComesFrom(g, rule.body, x) && x.R?
    ensures x in rule.body
  {
    if s, b :| s in rule.body && s.R? && b in Alternatives(g, s.name) && x in b {
      assert NoRepl(b);
    }
  }

  /** Rules nested one deep stay so in every round. */
  lemma StepKeepsShallow(g: seq<Rule>)
    requires Shallow(g)
    ensures Shallow(Step(g))
  {
    forall r, x, b | r in Step(g) && x in r.body && x.R? && b in Alternatives(Step(g), x.name)
      ensures NoRepl(b)
    {
      assert r.body in Alternatives(Step(g), r.key);
      var rule, c := FromStep(g, r.key, r.body);
      VariantSymbols(g, rule.body, c, x);
      UsedBefore(g, rule, x);
      var from, d := FromStep(g, x.name, b);
      assert from == Rule(x.name, from.body);
      FreeStaysFree(g, from.body, d);
    }
  }

  /** The rules after `n` rounds. */
  function Iterate(g: seq<Rule>, n: nat): seq<Rule>
    decreases n
  {
    if n == 0 then g else Iterate(Step(g), n - 1)
  }

  /** `expand` ends after the first round that reports completion, the round after `n` others. */
  ghost predicate FirstComplete(g: seq<Rule>, n: nat) {
    Complete(Iterate(g, n)) && forall m: nat :: m < n ==> !Complete(Iterate(g, m))
  }

  lemma {:induction false} IterateNext(g: seq<Rule>, n: nat)
    ensures Iterate(g, n + 1) == Step(Iterate(g, n))
    decreases n
  {
    hide Step;
    if n > 0 { IterateNext(Step(g), n - 1); }
  }

  lemma {:induction false} IterateKeepsShallow(g: seq<Rule>, n: nat)
    requires Shallow(g)
    ensures Shallow(Iterate(g, n))
    decreases n
  {
    hide Shallow, Step;
    if n > 0 {
      StepKeepsShallow(g);
      IterateKeepsShallow(Step(g), n - 1);
    }
  }

  /** What `expand` leaves is free of replacement symbols exactly when the rounds before the
      last had brought the nesting down to one; it is if the rules were nested one deep. */
  lemma ExpandedReplFree(g: seq<Rule>, n: nat)
    requires FirstComplete(g, n)
    ensures ReplFree(Iterate(g, n + 1)) <==> Shallow(Iterate(g, n))
    ensures Shallow(g) ==> ReplFree(Iterate(g, n + 1))
  {
    hide ReplFree, Shallow, Complete;
    IterateNext(g, n);
    CompleteStepReplFree(Iterate(g, n));
    if Shallow(g) { IterateKeepsShallow(g, n); }
  }

  /** So `expand` may stop with replacement symbols left: "r-a" stands for "r-b", which
      stands for "d-x", nothing is ambiguous, and the first round is the last one. */
  lemma ExpansionMayStopEarly()
    ensures var g := [Rule("s-all", [R("r-a")]), Rule("r-a", [R("r-b")]), Rule("r-b", [T("d-x")])];
            AllDefined(g) && Complete(g) && !ReplFree(Step(g))
  {
    var g := [Rule("s-all", [R("r-a")]), Rule("r-a", [R("r-b")]), Rule("r-b", [T("d-x")])];
    AlternativesOf3(g[0], g[1], g[2], "r-a");
    AlternativesOf3(g[0], g[1], g[2], "r-b");
    forall i | 0 <= i < |g| ensures !Deferred(g, g[i].body) {
      assert Pre(g[i].body) == [];
    }
    assert AllDefined(g);
    NotShallow(g, g[0], R("r-a"), [R("r-b")], R("r-b"));
    CompleteStepReplFree(g);
  }

  lemma NotShallow(g: seq<Rule>, rule: Rule, s: Sym, b: seq<Sym>, x: Sym)
    requires rule in g && s in rule.body && s.R? && b in Alternatives(g, s.name) && x in b && x.R?
    ensures !Shallow(g)
  {
    assert !NoRepl(b);
  }

  lemma AlternativesOf3(a: Rule, b: Rule, c: Rule, key: string)
    ensures Alternatives([a, b, c], key) ==
      (if a.key == key then [a.body] else []) + (if b.key == key then [b.body] else []) +
      (if c.key == key then [c.body] else [])
  {
    assert [a, b, c][1..] == [b, c] && [b, c][1..] == [c] && [c][1..] == [];
    assert Alternatives([c], key) == (if c.key == key then [c.body] else []) + [];
  }

  // ---- termination ---------------------------------------------------------------

  function RankOf(rank: map<string, nat>, key: string): nat {
    if key in rank then rank[key] else 0
  }

  ghost predicate Below(rank: map<string, nat>, key: string, body: seq<Sym>) {
    forall s :: s in body && s.R? ==> RankOf(rank, s.name) < RankOf(rank, key)
  }

  /** The replacement symbols are acyclic: they can be ranked so that every rule uses
      only symbols of a lower rank than its key. */
  ghost predicate Acyclic(g: seq<Rule>) {
    exists rank: map<string, nat> :: Ranked(g, rank)
  }

  ghost predicate Ranked(g: seq<Rule>, rank: map<string, nat>) {
    forall rule :: rule in g ==> Below(rank, rule.key, rule.body)
  }

  /** 1 + the greatest weight of its bodies, a body weighing the sum of its symbols. */
  ghost function Weight(g: seq<Rule>, rank: map<string, nat>, key: string): nat
    requires Ranked(g, rank)
    decreases RankOf(rank, key), 2, 0
  {
    1 + MaxWeight(g, rank, key, Alternatives(g, key))
  }

  ghost function MaxWeight(g: seq<Rule>, rank: map<string, nat>, key: string, bodies: seq<seq<Sym>>): (m: nat)
    requires Ranked(g, rank) && forall b :: b in bodies ==> Below(rank, key, b)
    ensures forall b :: b in bodies ==> BodyWeight(g, rank, key, b) <= m
    decreases RankOf(rank, key), 1, |bodies|
  {
    if bodies == [] then 0
    else
      assert bodies == Pre(bodies) + [Last(bodies)];
      var m, w := MaxWeight(g, rank, key, Pre(bodies)), BodyWeight(g, rank, key, Last(bodies));
      if m < w then w else m
  }

  ghost function BodyWeight(g: seq<Rule>, rank: map<string, nat>, key: string, body: seq<Sym>): nat
    requires Ranked(g, rank) && Below(rank, key, body)
    decreases RankOf(rank, key), 0, |body|
  {
    if body == [] then 0
    else
      assert body == Pre(body) + [Last(body)];
      BodyWeight(g, rank, key, Pre(body)) +
      (if Last(body).R? then Weight(g, rank, Last(body).name) else 0)
  }

  /** The same weights read off a table, which later rounds keep using. */
  ghost function Sum(weights: map<string, nat>, body: seq<Sym>): nat {
    if body == [] then 0
    else Sum(weights, Pre(body)) + (if Last(body).R? then RankOf(weights, Last(body).name) else 0)
  }

  ghost predicate BodyWeighted(weights: map<string, nat>, body: seq<Sym>) {
    forall s :: s in body && s.R? ==> s.name in weights && weights[s.name] >= 1
  }

  /** The weight of a body is below the weight of its key. */
  ghost predicate Weighted(g: seq<Rule>, weights: map<string, nat>) {
    forall rule :: rule in g ==>
      BodyWeighted(weights, rule.body) &&
      (rule.key in weights ==> Sum(weights, rule.body) < weights[rule.key])
  }

  ghost function UsedNames(g: seq<Rule>): set<string> {
    set rule, s | rule in g && s in rule.body && s.R? :: s.name
  }

  lemma {:induction false} SumIsBodyWeight(g: seq<Rule>, rank: map<string, nat>, weights: map<string, nat>,
                                           key: string, body: seq<Sym>)
    requires Ranked(g, rank) && Below(rank, key, body)
    requires forall s :: s in body && s.R? ==> s.name in weights && weights[s.name] == Weight(g, rank, s.name)
    ensures Sum(weights, body) == BodyWeight(g, rank, key, body)
    decreases |body|
  {
    if body != [] {
      assert body == Pre(body) + [Last(body)];
      SumIsBodyWeight(g, rank, weights, key, Pre(body));
    }
  }

  /** An acyclic rule set has a table of weights. */
  lemma AcyclicWeighted(g: seq<Rule>) returns (weights: map<string, nat>)
    requires Acyclic(g)
    ensures Weighted(g, weights)
  {
    var rank :| Ranked(g, rank);
    weights := map name | name in UsedNames(g) :: Weight(g, rank, name);
    forall rule | rule in g
      ensures BodyWeighted(weights, rule.body)
      ensures rule.key in weights ==> Sum(weights, rule.body) < weights[rule.key]
    {
      assert forall s :: s in rule.body && s.R? ==> s.name in UsedNames(g);
      SumIsBodyWeight(g, rank, weights, rule.key, rule.body);
      assert rule == Rule(rule.key, rule.body);
      assert rule.body in Alternatives(g, rule.key);
    }
  }

  lemma {:induction false} SumAppend(weights: map<string, nat>, a: seq<Sym>, b: seq<Sym>)
    ensures Sum(weights, a + b) == Sum(weights, a) + Sum(weights, b)
    decreases |b|
  {
    if b == [] {
      assert a + b == a;
    } else {
      SumAppend(weights, a, Pre(b));
      PreLastAppend(a, b);
    }
  }

  lemma {:induction false} WeightlessIsPlain(g: seq<Rule>, weights: map<string, nat>, body: seq<Sym>)
    requires BodyWeighted(weights, body) && Sum(weights, body) == 0
    ensures NoRepl(body) && Width(g, body) == 1 && !Deferred(g, body)
    decreases |body|
  {
    if body != [] {
      assert body == Pre(body) + [Last(body)];
      WeightlessIsPlain(g, weights, Pre(body));
    }
  }

  lemma PieceWeight(g: seq<Rule>, weights: map<string, nat>, s: Sym, split: bool, c: nat)
    requires Weighted(g, weights) && BodyWeighted(weights, [s])
    requires Ambiguous(g, s) && !split ==> c < |Alternatives(g, s.name)|
    ensures var piece := Piece(g, s, split, c);
            Sum(weights, piece) <= Sum(weights, [s]) && BodyWeighted(weights, piece) &&
            (s.R? && !split ==> Sum(weights, piece) < Sum(weights, [s]))
  {
    var piece := Piece(g, s, split, c);
    assert Pre([s]) == [] && Last([s]) == s && s in [s];
    if s.R? && piece != [s] && piece != [] {
      assert piece in Alternatives(g, s.name);
      assert Rule(s.name, piece) in g;
    } else if s.R? && piece == [s] && Alternatives(g, s.name) != [] && !split {
      assert piece in Alternatives(g, s.name);
      assert Rule(s.name, piece) in g;
    }
  }

  /** A round strictly lowers the weight of every body holding a replacement symbol. */
  lemma {:induction false} VariantWeight(g: seq<Rule>, weights: map<string, nat>, body: seq<Sym>, c: nat)
    requires Weighted(g, weights) && BodyWeighted(weights, body) && c < Width(g, body)
    ensures Sum(weights, Variant(g, body, c)) <= Sum(weights, body)
    ensures Sum(weights, body) > 0 ==> Sum(weights, Variant(g, body, c)) < Sum(weights, body)
    ensures BodyWeighted(weights, Variant(g, body, c))
    decreases |body|
  {
    if body != [] {
      assert body == Pre(body) + [Last(body)];
      var split := Width(g, Pre(body)) > 1;
      var c' := if split then c else 0;
      VariantWeight(g, weights, Pre(body), c');
      PieceWeight(g, weights, Last(body), split, c);
      SumAppend(weights, Variant(g, Pre(body), c'), Piece(g, Last(body), split, c));
      SumAppend(weights, Pre(body), [Last(body)]);
      if Sum(weights, Pre(body)) == 0 {
        WeightlessIsPlain(g, weights, Pre(body));
        assert Last(body).T? ==> Sum(weights, [Last(body)]) == 0;
      }
    }
  }

  lemma StepKeepsWeights(g: seq<Rule>, weights: map<string, nat>)
    requires Weighted(g, weights)
    ensures Weighted(Step(g), weights)
  {
    forall r | r in Step(g)
      ensures BodyWeighted(weights, r.body)
      ensures r.key in weights ==> Sum(weights, r.body) < weights[r.key]
    {
      assert r.body in Alternatives(Step(g), r.key);
      var rule, c := FromStep(g, r.key, r.body);
      VariantWeight(g, weights, rule.body, c);
    }
  }

  /** The weight of the heaviest body. */
  ghost function Top(g: seq<Rule>, weights: map<string, nat>): (m: nat)
    ensures forall rule :: rule in g ==> Sum(weights, rule.body) <= m
    ensures m > 0 ==> exists rule :: rule in g && Sum(weights, rule.body) == m
  {
    if g == [] then 0
    else
      assert g == Pre(g) + [Last(g)];
      var m, w := Top(Pre(g), weights), Sum(weights, Last(g).body);
      if m < w then assert Last(g) in g; w else m
  }

  /** Each round lowers the heaviest body, and a round that is not complete had one
      to lower: this bounds the rounds of `expand`. */
  lemma RoundLowersTop(g: seq<Rule>, weights: map<string, nat>)
    requires Weighted(g, weights)
    ensures Top(g, weights) > 0 ==> Top(Step(g), weights) < Top(g, weights)
    ensures Top(g, weights) == 0 ==> Complete(g) && ReplFree(g)
  {
    if Top(g, weights) == 0 {
      forall rule | rule in g ensures !Deferred(g, rule.body) && NoRepl(rule.body) {
        WeightlessIsPlain(g, weights, rule.body);
      }
    } else if Top(Step(g), weights) > 0 {
      var r :| r in Step(g) && Sum(weights, r.body) == Top(Step(g), weights);
      assert r.body in Alternatives(Step(g), r.key);
      var rule, c := FromStep(g, r.key, r.body);
      VariantWeight(g, weights, rule.body, c);
    }
  }

  // ---- how alternatives add up ----------------------------------------------------------

  lemma {:induction false} AlternativesAppend(a: seq<Rule>, b: seq<Rule>, key: string)
    ensures Alternatives(a + b, key) == Alternatives(a, key) + Alternatives(b, key)
  {
    if a == [] {
      assert a + b == b;
    } else {
      AlternativesAppend(a[1..], b, key);
      assert (a + b)[1..] == a[1..] + b && (a + b)[0] == a[0];
    }
  }

  lemma AlternativesOf1(r: Rule, key: string)
    ensures Alternatives([r], key) == if r.key == key then [r.body] else []
  {
    assert [r][1..] == [];
    assert Alternatives([], key) == [];
  }

  lemma AlternativesKeyed(rs: seq<Rule>, key: string)
    requires rs != [] && rs[0].key == key
    ensures |Alternatives(rs, key)| >= 1
  {
  }

  lemma {:induction false} AlternativesGrow(g: seq<Rule>, rules: seq<Rule>, key: string)
    ensures |Alternatives(StepRules(g, rules), key)| >= |Alternatives(rules, key)|
    decreases |rules|
  {
    hide Variant, Width, Alternatives;
    if rules != [] {
      var olds, last := Pre(rules), Last(rules);
      var news := VariantRules(g, last);
      AlternativesGrow(g, olds, key);
      AlternativesAppend(StepRules(g, olds), news, key);
      AlternativesAppend(olds, [last], key);
      AlternativesOf1(last, key);
      assert rules == olds + [last];
      if last.key == key { AlternativesKeyed(news, key); }
    }
  }

  lemma StepGrows(g: seq<Rule>, name: string)
    ensures |Alternatives(Step(g), name)| >= |Alternatives(g, name)|
  {
    AlternativesGrow(g, g, name);
  }
}
