/** A sentence from the tagged words to its fact: parsed, written as XML and read back. */
module Sentences {
  import opened Text
  import opened Entities
  import opened Expansion
  import opened Reduction
  import opened ReduceMaps
  import opened Grammars
  import opened XmlCodec
  import opened EntityXml
  import opened MarkedExpansion
  import opened ParseTrees
  import opened FactTexts
  import Cfg

  // ---- the texts of the input ------------------------------------------------------

  lemma {:induction false} SplitChars(s: string, seps: set<char>)
    ensures forall p, c :: p in Split(s, seps) && c in p ==> c in s && c !in seps
  {
    if s != "" {
      SplitChars(s[1..], seps);
      var rest := Split(s[1..], seps);
      assert forall c :: c in s[1..] ==> c in s;
      assert rest[0] in rest;
      forall p, c | p in Split(s, seps) && c in p ensures c in s && c !in seps {
        if s[0] !in seps && p !in rest[1..] {
          assert p == [s[0]] + rest[0];
        } else if p != "" {
          assert p in rest;
        }
      }
    }
  }

  lemma {:induction false} TrimLeftChars(s: string, cs: set<char>)
    ensures forall c :: c in TrimLeft(s, cs) ==> c in s
  {
    if s != "" { TrimLeftChars(s[1..], cs); }
  }

  lemma {:induction false} TrimRightChars(s: string, cs: set<char>)
    ensures forall c :: c in TrimRight(s, cs) ==> c in s
  {
    if s != "" { TrimRightChars(s[..|s| - 1], cs); }
  }

  lemma NoAngleFrom(s: string, t: string)
    requires (forall c :: c in t ==> c in s) && NoneOf(s, {'<', '>'})
    ensures NoAngle(t)
  {
    forall i | 0 <= i < |t| ensures t[i] != '<' && t[i] != '>' {
      assert t[i] in t;
    }
  }

  lemma PieceTextOk(piece: string)
    requires NoneOf(piece, {'#', '>'})
    ensures forall p :: p in Split(piece, {'|', '<'}) ==> NoAngle(Trim(p, WHITESPACE))
  {
    forall p | p in Split(piece, {'|', '<'}) ensures NoAngle(Trim(p, WHITESPACE)) {
      SplitChars(piece, {'|', '<'});
      TrimLeftChars(p, WHITESPACE);
      TrimRightChars(TrimLeft(p, WHITESPACE), WHITESPACE);
      NoAngleFrom(p, Trim(p, WHITESPACE));
    }
  }

  lemma {:induction false} AcceptedTextsOk(pieces: seq<string>)
    requires forall p :: p in pieces ==> NoneOf(p, {'#', '>'})
    ensures forall l :: l in AcceptedWords(pieces) ==> NoAngle(l.1)
    decreases |pieces|
  {
    hide Trim, NoneOf, NoAngle, ToKey, NewEntity;
    if pieces != [] {
      assert pieces[0] in pieces;
      PieceTextOk(pieces[0]);
      AcceptedTextsOk(pieces[1..]);
    }
  }

  /** The input is split at both angle brackets, so that no word's text has one. */
  lemma InputTextsOk(s: string)
    ensures forall l :: l in AllLeaves(ParsedInput(s)) ==> NoAngle(l.1)
  {
    hide Trim, NoneOf, NoAngle, ToKey, NewEntity, ParsedInput, AllLeaves, AcceptedWords;
    InputIsUnparsed(s);
    AcceptedTextsOk(Split(s, {'#', '>'}));
    NoAngleNothing();
  }

  // ---- from the parse to the fact ----------------------------------------------------

  function ListXml(es: seq<Entity>): string {
    if es == [] then "" else ToXml(es[0], 0) + ListXml(es[1..])
  }

  /** `print_xml`: only the first result is written. */
  method PrintParses(output: seq<seq<Entity>>) returns (xml: string)
    ensures xml == if output == [] then "" else ListXml(output[0])
  {
    hide ToXml;
    xml := "";
    if |output| > 0 {
      var es := output[0];
      var i := 0;
      assert es[0..] == es;
      while i < |es|
        invariant 0 <= i <= |es| && xml + ListXml(es[i..]) == ListXml(es)
      {
        assert es[i..][0] == es[i] && es[i..][1..] == es[i + 1..];
        var s := ToXmlLoop(es[i], 0);
        xml := xml + s;
        i := i + 1;
      }
      assert es[i..] == [];
    }
  }

  datatype Sentence = Fact(fact: Xml) | NoFact | LinesEnd

  /** The first fact in the lines from `i` on. */
  function FirstFact(lines: seq<string>, i: nat): Sentence
    decreases |lines| - i
  {
    if i >= |lines| then NoFact
    else if lines[i] != "<" then FirstFact(lines, i + 1)
    else if i + 1 >= |lines| then LinesEnd
    else if lines[i + 1] != "fact" then FirstFact(lines, i + 2)
    else
      match ReadTree(lines, i + 2, "fact", [])
      case OutOfRange => LinesEnd
      case Done(content, _) => Fact(ListNode("fact", content))
  }

  method ReadFirstFact(lines: seq<string>) returns (s: Sentence)
    ensures s == FirstFact(lines, 0)
  {
    var i := 0;
    while i < |lines|
      invariant FirstFact(lines, i) == FirstFact(lines, 0)
    {
      if lines[i] == "<" {
        i := i + 1;
        if i >= |lines| { return LinesEnd; }
        if lines[i] == "fact" {
          i := i + 1;
          var content, _, ok := ReadTreeLoop("fact", lines, i);
          return if ok then Fact(ListNode("fact", content)) else LinesEnd;
        }
      }
      i := i + 1;
    }
    s := NoFact;
  }

  lemma FirstOfRoot(nodes: seq<Node>, content: seq<Xml>, next: nat)
    requires ReadTree(RootLines(nodes), 3, "fact", []) == Done(content, next)
    ensures FirstFact(RootLines(nodes), 0) == Fact(ListNode("fact", content))
  {
    hide ReadTree, LinesOf;
    var lines := RootLines(nodes);
    assert lines[0] == "" && lines[1] == "<" && lines[2] == "fact";
    assert FirstFact(lines, 0) == FirstFact(lines, 1);
  }

  lemma NothingRead()
    ensures FirstFact(Lines(Tokens('\0', "")), 0) == NoFact
  {
  }

  lemma ListOfOne(e: Entity)
    ensures ListXml([e]) == ToXml(e, 0)
  {
    assert [e][1..] == [] && ListXml([]) == "";
  }

  /** The text of a parse of any input, in a reduce map whose targets have no markers, is
      read as exactly one fact, to its very end. */
  lemma ResultIsFact(red: ReduceMap, input: string, e: Entity)
    requires IsParseTree(red, ParsedInput(input), e) && e.virt == []
    ensures var lines := Lines(Tokens('\0', ToXml(e, 0)));
            && ReadFacts(lines, 0, []) == Facts([FactOf(e)]) && FirstFact(lines, 0) == Fact(FactOf(e))
  {
    hide IsParseTree, ParsedInput, ToXml, Tokens, Lines, ReadFacts, ReadTree, RootLines, RootNodes, Content, FirstFact;
    InputTextsOk(input);
    ParseIsRead(red, ParsedInput(input), e);
    var content := Content("fact", RootNodes(e), "");
    FirstOfRoot(RootNodes(e), content, |RootLines(RootNodes(e))| - 1);
  }

  /** `sentence::parse`: without a parse there is no fact, otherwise the fact is that of the
      first parse; nothing is assumed of the trees. It says under each part what the parse has
      there, and where only linking words and commas are marked as such, it has all the words of
      the input but these and conjunctions. */
  method ParseSentence(g: Grammar, input: string) returns (final: seq<seq<Entity>>, s: Sentence)
    requires TableOk(g.symSo) && RedOk(g.red) && SortedKeysFor(g.red, g.redKeys) && PlainTargets(g.red)
    requires WordsOk(ParsedInput(input))
    modifies g`symSo
    ensures forall ws: seq<Entity> :: ws in final ==>
              |ws| == 1 && IsParseTree(g.red, ParsedInput(input), ws[0]) && ws[0].virt == [] &&
              Leaves(ws[0]) == InputLeaves(input)
    ensures forall ws: seq<Entity> :: ws in final ==> |ws| == 1 && Built(g.red, ParsedInput(input), ws[0], [])
    ensures s == if final == [] then NoFact else Fact(FactOf(final[0][0]))
    ensures final != [] ==> SaysTree(s.fact, final[0][0])
    ensures final != [] && RulesMarkOk(g.red) && WordsMarkOk(ParsedInput(input)) ==>
              KeepsLeaves(InputLeaves(input), final[0][0])
    ensures TableOk(g.symSo)
  {
    hide TableOk, RedOk, SortedKeysFor, PlainTargets, WordsOk, ParsedInput, IsParseTree, IsHistory, FinishedIn, Leaves,
         ToXml, Tokens, Lines, FirstFact, FactOf, Built, SaysTree, KeepsLeaves, RulesMarkOk, WordsMarkOk;
    ghost var rounds;
    final, rounds := g.Parse(input);
    var xml := PrintParses(final);
    var pre := OrderTags(xml, "");
    assert "" + Tokens('\0', xml) == Tokens('\0', xml);
    s := ReadFirstFact(Lines(pre));
    if final == [] {
      NothingRead();
    } else {
      assert final[0] in final;
      var e := final[0][0];
      assert final[0] == [e];
      ListOfOne(e);
      ResultIsFact(g.red, input, e);
      ParseKey(g.red, ParsedInput(input), e);
      ParseHasWords(g.red, ParsedInput(input), e);
    }
  }

  lemma ParseKey(red: ReduceMap, words: seq<Entity>, e: Entity)
    requires IsParseTree(red, words, e)
    ensures ToKey(e) == "s-all"
  {
  }

  // ---- markers in the grammar as written ---------------------------------------------------

  /** Only linking words and commas are marked as such by the rules, and no rule derives anything
      from them. */
  predicate GrammarMarksOk(g: Rules) {
    forall rule :: rule in g ==> !SilentKey(rule.key) && BodyMarksOk(rule.body)
  }

  predicate BodyMarksOk(body: seq<Entity>) {
    forall b :: b in body ==> FirstMarkerOk(b)
  }

  lemma ReplacementMarks(e: Entity)
    requires SymbolOk(e) && TypeOf(e) == 'r' && FirstMarkerOk(e)
    ensures e.virt == [] || e.virt[0] !in SILENT
  {
    assert Primary(e) == e.repl && "r-"[0] == 'r' && "d-linking"[0] == 'd' && "d-komma"[0] == 'd';
  }

  lemma MarksBehind(body: seq<Entity>, ms: seq<string>)
    requires BodyMarksOk(body) && (ms == [] || ms[0] !in SILENT)
    ensures BodyMarksOk(WithMarkers(body, ms))
  {
    forall i | 0 <= i < |body| ensures FirstMarkerOk(WithMarkers(body, ms)[i]) {
      assert body[i] in body && FirstMarkerOk(body[i]);
      assert Primary(WithMarkers(body, ms)[i]) == Primary(body[i]);
    }
  }

  /** Expansion puts markers behind those that are there, and so keeps what is marked first. */
  lemma {:induction false} UnfoldedMarks(g: Rules, n: nat, body: seq<Entity>, w: seq<Entity>)
    requires RulesOk(g) && GrammarMarksOk(g) && BodyOk(body) && BodyMarksOk(body) && Unfolds(g, false, n, body, w)
    ensures BodyMarksOk(w)
    decreases n, |body|
  {
    hide SymbolOk, FirstMarkerOk, WithMarkers, ToKey, TypeOf, SilentKey, MarkersOk;
    if body != [] {
      var u, v := Unsnoc(g, false, n, body, w);
      PreLastSyms(body);
      UnfoldedMarks(g, n, Cfg.Pre(body), u);
      var e := Cfg.Last(body);
      if v != [e] {
        var rule :| rule in g && rule.key == ToKey(e) && Unfolds(g, false, n - 1, WithMarkers(rule.body, e.virt), v);
        SymbolMarkers(e);
        ReplacementMarks(e);
        MarkedBody(rule.body, e.virt);
        MarksBehind(rule.body, e.virt);
        UnfoldedMarks(g, n - 1, WithMarkers(rule.body, e.virt), v);
      }
    }
  }

  lemma ExpandedMarks(written: Rules, rules: Rules)
    requires RulesOk(written) && GrammarMarksOk(written) && AllFrom(written, rules)
    requires forall r :: r in rules ==> exists o :: o in written && o.key == r.key
    ensures GrammarMarksOk(rules)
  {
    hide SymbolOk, FirstMarkerOk, SilentKey, Unfolds;
    forall r | r in rules ensures !SilentKey(r.key) && BodyMarksOk(r.body) {
      assert StandsFor(written, false, r.key, r.body);
      var rule :| rule in written && rule.key == r.key && UnfoldsTo(written, false, rule.body, r.body);
      var n: nat :| Unfolds(written, false, n, rule.body, r.body);
      UnfoldedMarks(written, n, rule.body, r.body);
    }
  }

  lemma CompiledMarks(table: map<string, Entity>, rules: Rules, red: ReduceMap)
    requires TableOk(table) && IsReduceMap(table, rules, red) && CleanRules(rules) && KeyForms(rules)
    requires GrammarMarksOk(rules) && PlainTargets(red) && RedOk(red)
    ensures RulesMarkOk(red)
  {
    hide SilentKey, FirstMarkerOk, WellFormed, ToKey, IsReduceMap, TableOk, CleanRules, KeyForms;
    forall rule | InRed(red, rule)
      ensures forall b :: b in rule.body ==> FirstMarkerOk(b)
      ensures FirstMarkerOk(rule.target) && Primary(rule.target) !in SILENT {
      EntriesAreRules(table, rules, red, rule);
      assert BodyMarksOk(GrammarRule(ToKey(rule.target), rule.body).body);
      assert RuleOk(rule) && !SilentKey(ToKey(rule.target));
      PrimaryOfKey(rule.target);
      NoFirstMarker(rule.target);
    }
  }

  lemma NoFirstMarker(e: Entity)
    requires e.virt == []
    ensures FirstMarkerOk(e)
  {
  }

  // ---- derivations in the grammar as written ---------------------------------------------

  /** Every inner node's child keys are a string that the grammar derives from the node's key. */
  ghost predicate AsWritten(g: Rules, e: Entity) {
    e.embed == [] ||
    (Cfg.InLanguage(RulesOf(g), ToKey(e), Keys(e.embed)) && forall c :: c in e.embed ==> AsWritten(g, c))
  }

  predicate IsReplKey(key: string) { StartsWith(key, "r-") }

  lemma ReplKey(e: Entity)
    requires WellFormed(e)
    ensures TypeOf(e) == 'r' <==> IsReplKey(ToKey(e))
  {
    var key := ToKey(e);
    if Primary(e) == "" {
      assert key[0] == "null"[0] == 'n' && "r-"[0] == 'r';
    } else {
      assert key[0] == Primary(e)[0] && key[1] == Primary(e)[1];
      assert "r-"[0] == 'r' && "d-"[0] == 'd' && "s-"[0] == 's';
      if TypeOf(e) == 'r' { assert key[..2] == "r-"; }
    }
  }

  /** A body without replacement symbols derives its own keys. */
  lemma {:induction false} PlainBodyYields(g: seq<Cfg.Rule>, body: seq<Entity>)
    requires forall b :: b in body ==> TypeOf(b) != 'r'
    ensures Cfg.Yields(g, 0, SymsOf(body), Keys(body))
    decreases |body|
  {
    hide ToKey, TypeOf;
    if body != [] {
      var front, last := Cfg.Pre(body), Cfg.Last(body);
      assert last in body && forall b :: b in front ==> b in body;
      PlainBodyYields(g, front);
      PreLastSyms(body);
      assert SymOf(last) == Cfg.T(ToKey(last));
      Cfg.YieldsBuild(g, 0, SymsOf(body), Keys(front), [ToKey(last)], Keys(body));
    }
  }

  lemma RuleDerivesBody(rules: Rules, key: string, body: seq<Entity>)
    requires GrammarRule(key, body) in rules && forall b :: b in body ==> TypeOf(b) != 'r'
    ensures Cfg.InLanguage(RulesOf(rules), key, Keys(body))
  {
    hide TypeOf, ToKey;
    PlainBodyYields(RulesOf(rules), body);
    var i :| 0 <= i < |rules| && rules[i] == GrammarRule(key, body);
    assert RulesOf(rules)[i] == Cfg.Rule(key, SymsOf(body));
    assert SymsOf(body) in Cfg.Alternatives(RulesOf(rules), key);
  }

  /** What `expand` and `build_reducemap` leave: a reduce map of clean rules that derive what
      the rules as written derive. */
  ghost predicate CompiledFrom(written: Rules, table: map<string, Entity>, rules: Rules, red: ReduceMap) {
    && TableOk(table) && RulesOk(rules) && CleanRules(rules) && KeyForms(rules)
    && IsReduceMap(table, rules, red) && SameLanguage(written, rules)
  }

  /** No target is a replacement symbol, and no leaf is meant to be one. */
  lemma NodeKey(written: Rules, table: map<string, Entity>, rules: Rules, red: ReduceMap, e: Entity)
    requires CompiledFrom(written, table, rules, red) && Genuine(red, e)
    requires forall l :: l in Leaves(e) ==> !IsReplKey(l.0)
    ensures !IsReplKey(ToKey(e))
  {
    hide ToKey, IsReplKey, WellFormed, RulesOk, CleanRules, SameLanguage, AllLeaves;
    if e.embed == [] {
      assert (ToKey(e), e.text) in Leaves(e);
    } else {
      var rule :| InRed(red, rule) && ToKey(rule.target) == ToKey(e) && Keys(rule.body) == Keys(e.embed);
      var o :| 0 <= o < |red| && rule in red[o];
      var from :| from in rules && EntryFor(table, from, o, rule);
      ReplKey(rule.target);
    }
  }

  /** Every inner node of a parse, whatever replacement symbols are left in the rules, has
      children that the grammar as written derives from it. */
  lemma {:induction false} GenuineAsWritten(written: Rules, table: map<string, Entity>, rules: Rules, red: ReduceMap,
                                            e: Entity)
    requires CompiledFrom(written, table, rules, red) && Genuine(red, e)
    requires forall l :: l in Leaves(e) ==> !IsReplKey(l.0)
    ensures AsWritten(written, e)
    decreases e
  {
    hide ToKey, IsReplKey, WellFormed, AllLeaves, CompiledFrom, TypeOf;
    if e.embed != [] {
      forall k | 0 <= k < |e.embed|
        ensures AsWritten(written, e.embed[k]) && !IsReplKey(ToKey(e.embed[k])) {
        assert e.embed[k] in e.embed;
        forall l | l in Leaves(e.embed[k]) ensures !IsReplKey(l.0) {
          LeavesOfKid(e.embed, k, l);
        }
        GenuineAsWritten(written, table, rules, red, e.embed[k]);
        NodeKey(written, table, rules, red, e.embed[k]);
      }
      var rule :| InRed(red, rule) && ToKey(rule.target) == ToKey(e) && Keys(rule.body) == Keys(e.embed);
      NodeAsWritten(written, table, rules, red, rule, e);
    }
  }

  lemma NodeAsWritten(written: Rules, table: map<string, Entity>, rules: Rules, red: ReduceMap, rule: ReduceRule,
                      e: Entity)
    requires CompiledFrom(written, table, rules, red)
    requires InRed(red, rule) && ToKey(rule.target) == ToKey(e) && Keys(rule.body) == Keys(e.embed)
    requires forall k :: 0 <= k < |e.embed| ==> !IsReplKey(ToKey(e.embed[k]))
    ensures Cfg.InLanguage(RulesOf(written), ToKey(e), Keys(e.embed))
  {
    hide ToKey, IsReplKey, WellFormed, TypeOf, InRed, IsReduceMap, TableOk, CleanRules, KeyForm;
    EntriesAreRules(table, rules, red, rule);
    var body := rule.body;
    forall b | b in body ensures TypeOf(b) != 'r' {
      var k :| 0 <= k < |body| && body[k] == b;
      assert Keys(body)[k] == Keys(e.embed)[k];
      ReplKey(b);
    }
    RuleDerivesBody(rules, ToKey(e), body);
  }

  /** A grammar expanded and used on a sentence: whatever is parsed is a tree for "s-all" over
      the words of the input, derived node by node in the grammar as it was written and marked by
      the rule elements; the fact is that of the first parse, says under each part what this parse
      has there, and has all words of the input that may not be missing. */
  method ExpandAndParse(g: Grammar, input: string) returns (final: seq<seq<Entity>>, s: Sentence)
    requires TableOk(g.symSo) && RulesOk(g.gra) && CleanRules(g.gra) && KeyForms(g.gra)
    requires Cfg.AllDefined(RulesOf(g.gra)) && Cfg.Acyclic(RulesOf(g.gra))
    requires WordsOk(ParsedInput(input))
    modifies g
    ensures forall ws: seq<Entity> :: ws in final ==>
              |ws| == 1 && ToKey(ws[0]) == "s-all" && Leaves(ws[0]) == InputLeaves(input)
    ensures (forall l :: l in InputLeaves(input) ==> !IsReplKey(l.0)) ==>
              forall ws: seq<Entity> :: ws in final ==> |ws| == 1 && AsWritten(old(g.gra), ws[0])
    ensures forall ws: seq<Entity> :: ws in final ==> |ws| == 1 && Built(g.red, ParsedInput(input), ws[0], [])
    ensures s == if final == [] then NoFact else Fact(FactOf(final[0][0]))
    ensures final != [] ==> SaysTree(s.fact, final[0][0])
    ensures final != [] && GrammarMarksOk(old(g.gra)) && WordsMarkOk(ParsedInput(input)) ==>
              KeepsLeaves(InputLeaves(input), final[0][0])
  {
    hide Built, SaysTree, KeepsLeaves, RulesMarkOk, WordsMarkOk, GrammarMarksOk, AllFrom, SameMarked, StandsFor;
    hide TableOk, RulesOk, CleanRules, KeyForms, IsReduceMap, SameLanguage, RedOk, SortedKeysFor, PlainTargets, WordsOk,
         ParsedInput, Genuine, AsWritten, Leaves, AllLeaves, InputLeaves, FactOf, IsReplKey, Cfg.AllDefined,
         Cfg.Acyclic, ToKey, Rounds, FirstCompleteRound, Cfg.Shallow, Cfg.ReplFree;
    ghost var written := g.gra;
    ghost var n := g.Expand();
    ghost var table, rules := g.symSo, g.gra;
    assert CompiledFrom(written, table, rules, g.red);
    if GrammarMarksOk(written) {
      ExpandedMarks(written, rules);
      CompiledMarks(table, rules, g.red);
    }
    final, s := ParseSentence(g, input);
    if forall l :: l in InputLeaves(input) ==> !IsReplKey(l.0) {
      forall ws: seq<Entity> | ws in final ensures |ws| == 1 && AsWritten(written, ws[0]) {
        GenuineAsWritten(written, table, rules, g.red, ws[0]);
      }
    }
  }
}
