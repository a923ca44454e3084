/** The symbol table and the reduce map that `build_reducemap` derives from the rules. */
module ReduceMaps {
  import opened Text
  import opened Entities
  import opened Expansion
  import opened Reduction

  /** The symbol table after `add_entity(e)`: the first entity printed a given way stays. */
  function Registered(table: map<string, Entity>, e: Entity): map<string, Entity> {
    if ToStr(e) in table then table else table[ToStr(e) := e]
  }

  ghost predicate TableOk(table: map<string, Entity>) {
    forall s :: s in table ==> ToStr(table[s]) == s && WellFormed(table[s])
  }

  ghost predicate Extends(table: map<string, Entity>, larger: map<string, Entity>) {
    forall s :: s in table ==> s in larger && larger[s] == table[s]
  }

  /** The entry of the reduce map that a grammar rule gives, if it gives one. */
  ghost predicate EntryFor(table: map<string, Entity>, rule: GrammarRule, order: int, entry: ReduceRule) {
    rule.key in table && table[rule.key].repl == "" && rule.body != [] &&
    order == GetOrder(table[rule.key]) &&
    entry == ReduceRule(AllGetKey(rule.body), table[rule.key], rule.body)
  }

  ghost predicate HasEntry(table: map<string, Entity>, rules: Rules, order: int, entry: ReduceRule) {
    exists rule :: rule in rules && EntryFor(table, rule, order, entry)
  }

  /** `red` holds exactly the entries of `rules`, each under its target's order. */
  ghost predicate IsReduceMap(table: map<string, Entity>, rules: Rules, red: ReduceMap) {
    forall o, entry :: (0 <= o < |red| && entry in red[o]) <==> HasEntry(table, rules, o, entry)
  }

  predicate LongestFirst(keys: seq<string>) {
    forall i, j :: 0 <= i < j < |keys| ==> |keys[i]| >= |keys[j]|
  }

  predicate Distinct(keys: seq<string>) {
    forall i, j :: 0 <= i < j < |keys| ==> keys[i] != keys[j]
  }

  ghost predicate KeysOfEntries(entries: seq<ReduceRule>, keys: seq<string>) {
    forall k :: k in keys <==> exists entry :: entry in entries && entry.keys == k
  }

  /** Each order's key strings, once each and longest first. */
  ghost predicate SortedKeysFor(red: ReduceMap, redKeys: seq<seq<string>>) {
    |redKeys| == |red| &&
    forall o :: 0 <= o < |red| ==>
      KeysOfEntries(red[o], redKeys[o]) && LongestFirst(redKeys[o]) && Distinct(redKeys[o])
  }

  /** `equal_range(key)` on one order's entries. */
  function WithKeys(entries: seq<ReduceRule>, key: string): (r: seq<ReduceRule>)
    ensures forall entry :: entry in r <==> entry in entries && entry.keys == key
  {
    if entries == [] then []
    else
      assert entries == [entries[0]] + entries[1..];
      if entries[0].keys == key then [entries[0]] + WithKeys(entries[1..], key)
      else WithKeys(entries[1..], key)
  }

  ghost predicate KeySetsFor(red: ReduceMap, keySets: seq<set<string>>) {
    |keySets| == |red| && forall o :: 0 <= o < |red| ==> KeySetFor(red[o], keySets[o])
  }

  ghost predicate KeySetFor(entries: seq<ReduceRule>, keys: set<string>) {
    forall k :: k in keys <==> exists entry :: entry in entries && entry.keys == k
  }

  lemma AddedKeys(entries: seq<ReduceRule>, keys: set<string>, entry: ReduceRule)
    requires KeySetFor(entries, keys)
    ensures KeySetFor(entries + [entry], keys + {entry.keys})
  {
    assert entry in entries + [entry];
    assert forall e :: e in entries + [entry] <==> e in entries || e == entry;
  }

  /** The sort of `build_reducemap`: longest string first, ties in any order. */
  method SortByLength(keys: set<string>) returns (sorted: seq<string>)
    ensures forall k :: k in sorted <==> k in keys
    ensures LongestFirst(sorted) && Distinct(sorted)
  {
    sorted := [];
    var rest := keys;
    while rest != {}
      invariant rest <= keys
      invariant forall k :: k in sorted <==> k in keys - rest
      invariant forall k, s :: k in rest && s in sorted ==> |k| <= |s|
      invariant LongestFirst(sorted) && Distinct(sorted)
      decreases rest
    {
      var longest: string :| longest in rest;
      var others := rest - {longest};
      while others != {}
        invariant others < rest && longest in rest && longest !in others
        invariant forall k :: k in rest && k !in others ==> |k| <= |longest|
        decreases others
      {
        var k: string :| k in others;
        others := others - {k};
        if |k| > |longest| { longest := k; }
      }
      sorted := sorted + [longest];
      rest := rest - {longest};
    }
  }

  lemma SkippedRule(table: map<string, Entity>, rules: Rules, rule: GrammarRule, red: ReduceMap)
    requires IsReduceMap(table, rules, red)
    requires forall o, entry :: !EntryFor(table, rule, o, entry)
    ensures IsReduceMap(table, rules + [rule], red)
  {
  }

  lemma AddedEntry(table: map<string, Entity>, rules: Rules, rule: GrammarRule,
                   before: ReduceMap, red: ReduceMap, order: int, entry: ReduceRule)
    requires IsReduceMap(table, rules, before) && EntryFor(table, rule, order, entry)
    requires |before| <= |red| && 0 <= order < |red|
    requires forall o :: 0 <= o < |red| ==>
               red[o] == (if o < |before| then before[o] else []) + (if o == order then [entry] else [])
    ensures IsReduceMap(table, rules + [rule], red)
  {
    forall o, e ensures (0 <= o < |red| && e in red[o]) == HasEntry(table, rules + [rule], o, e) {
      if 0 <= o < |red| && e in red[o] {
        if o == order && e == entry {
          assert rule in rules + [rule];
        } else {
          assert 0 <= o < |before| && e in before[o];
          var r :| r in rules && EntryFor(table, r, o, e);
          assert r in rules + [rule];
        }
      }
      if r :| r in rules + [rule] && EntryFor(table, r, o, e) {
        if r != rule { assert r in rules && HasEntry(table, rules, o, e); }
      }
    }
  }

  // ---- what the entries are ---------------------------------------------------------

  /** A symbol found under a key without spaces has no children, and no space in its key. */
  lemma TargetOk(table: map<string, Entity>, key: string)
    requires TableOk(table) && key in table && NoneOf(key, {' '})
    ensures ElementOk(table[key]) && table[key].embed == []
  {
  }

  /** A key string: the key of some symbol. */
  ghost predicate KeyForm(key: string) {
    exists e :: WellFormed(e) && ToKey(e) == key
  }

  lemma HasElement<X>(s: seq<X>)
    ensures s != [] ==> exists x :: x in s
  {
    if s != [] { assert s[0] in s; }
  }

  /** ... and the symbol found under it has that key and no markers. */
  lemma TargetHasRuleKey(table: map<string, Entity>, key: string)
    requires TableOk(table) && key in table && NoneOf(key, {' '}) && KeyForm(key)
    ensures ToKey(table[key]) == key && table[key].virt == []
  {
    TargetOk(table, key);
    var t := table[key];
    var e :| WellFormed(e) && ToKey(e) == key;
    ToStrSplits(t);
    KeySplits(e);
    var rest := OrderParts(t.order) + t.virt;
    assert ([NameOrNull(t)] + rest)[1..] == rest;
    assert ([NameOrNull(e)] + OrderParts(e.order))[1..] == OrderParts(e.order);
    HasElement(t.virt);
    assert forall v :: v in rest ==> AllDigits(v);
    assert forall v :: v in t.virt ==> v in rest && VirtOk(v, Primary(t) != "");
    assert t.virt == [];
    assert Slashed(t.virt) == "";
    assert ToStr(t) == ToKey(t) + "" + "";
  }

  /** Every entry built from clean, well-formed rules is one the engine can work with,
      and stands for one of those rules. */
  lemma EntriesOk(table: map<string, Entity>, rules: Rules, red: ReduceMap)
    requires TableOk(table) && IsReduceMap(table, rules, red) && RulesOk(rules) && CleanRules(rules)
    ensures RedOk(red)
  {
  }

  /** Rules are stored under keys. */
  ghost predicate KeyForms(rules: Rules) {
    forall rule :: rule in rules ==> KeyForm(rule.key)
  }

  lemma EntriesPlain(table: map<string, Entity>, rules: Rules, red: ReduceMap)
    requires TableOk(table) && IsReduceMap(table, rules, red) && CleanRules(rules) && KeyForms(rules)
    ensures PlainTargets(red)
  {
    forall entry | InRed(red, entry) ensures entry.target.virt == [] {
      var o :| 0 <= o < |red| && entry in red[o];
      var rule :| rule in rules && EntryFor(table, rule, o, entry);
      TargetHasRuleKey(table, rule.key);
    }
  }

  lemma EntriesAreRules(table: map<string, Entity>, rules: Rules, red: ReduceMap, entry: ReduceRule)
    requires TableOk(table) && IsReduceMap(table, rules, red) && CleanRules(rules) && KeyForms(rules)
    requires InRed(red, entry)
    ensures GrammarRule(ToKey(entry.target), entry.body) in rules
  {
    var o :| 0 <= o < |red| && entry in red[o];
    var rule :| rule in rules && EntryFor(table, rule, o, entry);
    TargetHasRuleKey(table, rule.key);
    assert rule == GrammarRule(rule.key, rule.body);
  }

  // ---- the turn of a rule --------------------------------------------------------------

  /** A rule is tried in the turn of its target's order number, and without one with those of
      number 1. */
  lemma TurnOfTarget(table: map<string, Entity>, rules: Rules, red: ReduceMap, o: int, entry: ReduceRule)
    requires IsReduceMap(table, rules, red) && 0 <= o < |red| && entry in red[o]
    ensures entry.target.order >= 0 ==> o == entry.target.order
    ensures entry.target.order < 0 ==> o == 1
  {
  }

  /** Among matching rules, one whose target has no number is only used where none has the number
      0, and gives way to no other number; one with a greater number than 1 waits for it. */
  lemma NumbersDecide(table: map<string, Entity>, rules: Rules, red: ReduceMap, words: seq<Entity>, o: int,
                      used: ReduceRule, other: ReduceRule)
    requires IsReduceMap(table, rules, red) && LowestOrder(red, words, o) && used in red[o]
    requires InRed(red, other) && Matches(other, words)
    ensures used.target.order < 0 ==> other.target.order != 0
    ensures used.target.order > 1 ==> other.target.order >= used.target.order
    ensures used.target.order == 1 ==> other.target.order != 0
  {
    hide Matches, EntryFor;
    var k :| 0 <= k < |red| && other in red[k];
    TurnOfTarget(table, rules, red, o, used);
    TurnOfTarget(table, rules, red, k, other);
    assert HasMatch(red[k], words);
  }

  /** Every rule with a body whose key is registered, and is no replacement symbol, is there. */
  lemma RulesAreEntries(table: map<string, Entity>, rules: Rules, red: ReduceMap, rule: GrammarRule)
    requires TableOk(table) && IsReduceMap(table, rules, red) && CleanRules(rules) && KeyForms(rules)
    requires rule in rules && rule.key in table && TypeOf(table[rule.key]) != 'r' && rule.body != []
    ensures exists entry :: InRed(red, entry) && ToKey(entry.target) == rule.key && entry.body == rule.body
  {
    hide ToKey;
    TargetHasRuleKey(table, rule.key);
    NamedTarget(table[rule.key]);
    var target := table[rule.key];
    var entry := ReduceRule(AllGetKey(rule.body), target, rule.body);
    assert EntryFor(table, rule, GetOrder(target), entry);
    assert HasEntry(table, rules, GetOrder(target), entry);
    assert InRed(red, entry);
  }

  lemma NamedTarget(e: Entity)
    ensures TypeOf(e) != 'r' && WellFormed(e) ==> e.repl == ""
  {
  }
}
