/** The grammar object: its rules, the reduce map built from them and the table of
    known symbols, updated step by step as expansion and reduction go on. */
module Grammars {
  import opened Text
  import opened Matching
  import opened Entities
  import opened Expansion
  import opened MarkedExpansion
  import opened Reduction
  import opened ReduceMaps
  import opened ReduceSteps
  import opened ReduceTargets
  import opened ParseTrees
  import Cfg

  class Grammar {
    var gra: Rules
    var red: ReduceMap
    var redKeys: seq<seq<string>>
    var symSo: map<string, Entity>

    constructor ()
      ensures gra == [] && red == [] && redKeys == [] && symSo == map[]
    {
      gra, red, redKeys, symSo := [], [], [], map[];
    }

    method AddEntity(e: Entity)
      requires TableOk(symSo) && WellFormed(e)
      modifies this`symSo
      ensures symSo == Registered(old(symSo), e)
      ensures TableOk(symSo) && Extends(old(symSo), symSo)
    {
      var s := ToStr(e);
      if s !in symSo {
        symSo := symSo[s := e];
      }
    }

    method ModifySymbol(obj: Entity, markers: seq<string>) returns (modified: Entity)
      requires TableOk(symSo) && WellFormed(obj)
      modifies this`symSo
      ensures modified == Mark(obj, markers) && WellFormed(modified)
      ensures symSo == Registered(old(symSo), modified)
      ensures TableOk(symSo) && Extends(old(symSo), symSo)
    {
      var str := "";
      var i := 0;
      while i < |markers|
        invariant 0 <= i <= |markers|
        invariant str + Slashed(markers[i..]) == Slashed(markers)
      {
        assert markers[i..][1..] == markers[i + 1..];
        str := str + "/" + markers[i];
        i := i + 1;
      }
      assert str + "" == str;
      var copy := new EntityObject.Copy(obj);
      copy.Init(str);
      modified := Entity(copy.data, copy.symbol, copy.repl, copy.virt, copy.text, copy.embed, copy.order);
      AddWellFormed(obj, str);
      AddEntity(modified);
    }

    // ---- expansion ----------------------------------------------------------------

    method InsertBack(replacement: seq<Entity>, into: seq<Entity>, previous: Entity) returns (r: seq<Entity>)
      requires TableOk(symSo) && BodyOk(replacement)
      modifies this`symSo
      ensures r == into + Inherited(replacement, previous)
      ensures TableOk(symSo) && Extends(old(symSo), symSo)
    {
      r := into;
      var i := 0;
      while i < |replacement|
        invariant 0 <= i <= |replacement|
        invariant r == into + Inherited(replacement, previous)[..i]
        invariant TableOk(symSo) && Extends(old(symSo), symSo)
      {
        assert replacement[i] in replacement;
        var e := ModifySymbol(replacement[i], Marker(previous));
        assert e == Inherited(replacement, previous)[i];
        r := r + [e];
        i := i + 1;
      }
    }

    /** One symbol's turn: it is replaced, splits the one body there is so far, or waits. */
    method ExpandSymbol(values: seq<seq<Entity>>, e: Entity) returns (r: seq<seq<Entity>>, deferred: bool)
      requires TableOk(symSo) && RulesOk(gra) && |values| >= 1
      modifies this`symSo
      ensures var bodies := Bodies(gra, ToKey(e));
              var ambiguous := TypeOf(e) == 'r' && |bodies| >= 2;
              |r| == (if ambiguous && |values| == 1 then |bodies| else |values|) &&
              (deferred <==> |values| > 1 && ambiguous) &&
              forall c: nat :: c < |r| ==>
                r[c] == values[if |values| > 1 then c else 0] + EntityPiece(gra, e, |values| > 1, c)
      ensures TableOk(symSo) && Extends(old(symSo), symSo)
    {
      deferred := false;
      var bodies := Bodies(gra, ToKey(e));
      BodiesAreAlternatives(gra, ToKey(e));
      forall k | 0 <= k < |bodies| ensures BodyOk(bodies[k]) {
        assert GrammarRule(ToKey(e), bodies[k]) in gra;
      }
      hide Bodies, Inherited, Mark, SymbolOk, TableOk, RulesOk, BodyOk;
      if TypeOf(e) != 'r' {
        r := PushToAll(values, e);
      } else if |bodies| == 0 {
        r := values;
      } else if |bodies| == 1 {
        r := AppendToAll(values, bodies, e);
      } else if |values| == 1 {
        var copies := [values[0]];
        var g := 1;
        while g < |bodies|
          invariant 1 <= g <= |bodies| && |copies| == g
          invariant forall c :: 0 <= c < g ==> copies[c] == values[0]
        {
          copies := copies + [values[0]];
          g := g + 1;
        }
        r := AppendToAll(copies, bodies, e);
      } else {
        deferred := true;
        r := PushToAll(values, e);
      }
    }

    /** All new bodies of one body, built up symbol by symbol. */
    method ExpandEntry(oldvalue: seq<Entity>, complete: bool)
      returns (newvalues: seq<seq<Entity>>, stillComplete: bool)
      requires TableOk(symSo) && RulesOk(gra)
      modifies this`symSo
      ensures |newvalues| == EntityWidth(gra, oldvalue)
      ensures forall c :: 0 <= c < |newvalues| ==> newvalues[c] == EntityVariant(gra, oldvalue, c)
      ensures BodyOk(oldvalue) && HasRules(gra, oldvalue) ==>
                forall c :: 0 <= c < |newvalues| ==> UnfoldsTo(gra, false, oldvalue, newvalues[c])
      ensures stillComplete <==> complete && !EntityDeferred(gra, oldvalue)
      ensures TableOk(symSo) && Extends(old(symSo), symSo)
    {
      hide EntityVariant, EntityWidth, EntityDeferred, EntityPiece, Bodies, TableOk, RulesOk, ToKey, TypeOf, BodyOk,
           HasRules, UnfoldsTo;
      newvalues := [[]];
      stillComplete := complete;
      var i := 0;
      assert oldvalue[..0] == [];
      EmptyBody(gra);
      while i < |oldvalue|
        invariant 0 <= i <= |oldvalue|
        invariant |newvalues| == EntityWidth(gra, oldvalue[..i])
        invariant forall c :: 0 <= c < |newvalues| ==> newvalues[c] == EntityVariant(gra, oldvalue[..i], c)
        invariant stillComplete <==> complete && !EntityDeferred(gra, oldvalue[..i])
        invariant TableOk(symSo) && Extends(old(symSo), symSo)
      {
        LongerBody(gra, oldvalue[..i], oldvalue[i]);
        assert oldvalue[..i + 1] == oldvalue[..i] + [oldvalue[i]];
        var deferred;
        newvalues, deferred := ExpandSymbol(newvalues, oldvalue[i]);
        if deferred { stillComplete := false; }
        i := i + 1;
      }
      assert oldvalue[..i] == oldvalue;
      if BodyOk(oldvalue) && HasRules(gra, oldvalue) {
        forall c | 0 <= c < |newvalues| ensures UnfoldsTo(gra, false, oldvalue, newvalues[c]) {
          VariantComesFrom(gra, oldvalue, c);
        }
      }
    }

    /** `push_back(e)` on every new body. */
    method PushToAll(values: seq<seq<Entity>>, e: Entity) returns (r: seq<seq<Entity>>)
      ensures |r| == |values| && forall c :: 0 <= c < |r| ==> r[c] == values[c] + [e]
    {
      r := values;
      var j := 0;
      while j < |r|
        invariant 0 <= j <= |r| == |values|
        invariant forall c :: 0 <= c < |r| ==> r[c] == if c < j then values[c] + [e] else values[c]
      {
        r := r[j := r[j] + [e]];
        j := j + 1;
      }
    }

    /** The replacement, or one replacement each, inserted behind every new body. */
    method AppendToAll(values: seq<seq<Entity>>, bodies: seq<seq<Entity>>, previous: Entity)
      returns (r: seq<seq<Entity>>)
      requires TableOk(symSo) && forall k :: 0 <= k < |bodies| ==> BodyOk(bodies[k])
      requires |bodies| == 1 || |bodies| == |values|
      modifies this`symSo
      ensures |r| == |values|
      ensures forall c :: 0 <= c < |r| ==>
                r[c] == values[c] + Inherited(bodies[if |bodies| == 1 then 0 else c], previous)
      ensures TableOk(symSo) && Extends(old(symSo), symSo)
    {
      r := values;
      var j := 0;
      while j < |r|
        invariant 0 <= j <= |r| == |values|
        invariant forall c :: 0 <= c < |r| ==>
                    r[c] == if c < j then values[c] + Inherited(bodies[if |bodies| == 1 then 0 else c], previous)
                            else values[c]
        invariant TableOk(symSo) && Extends(old(symSo), symSo)
      {
        var v := InsertBack(bodies[if |bodies| == 1 then 0 else j], r[j], previous);
        r := r[j := v];
        j := j + 1;
      }
    }

    method InsertAll(rules: Rules, rule: GrammarRule, newvalues: seq<seq<Entity>>) returns (r: Rules)
      requires |newvalues| == EntityWidth(gra, rule.body)
      requires forall c :: 0 <= c < |newvalues| ==> newvalues[c] == EntityVariant(gra, rule.body, c)
      ensures r == rules + NewRules(gra, rule)
    {
      r := rules;
      ghost var news := NewRules(gra, rule);
      var j := 0;
      while j < |newvalues|
        invariant 0 <= j <= |newvalues| == |news|
        invariant r == rules + news[..j]
      {
        assert news[j] == GrammarRule(rule.key, newvalues[j]);
        r := r + [GrammarRule(rule.key, newvalues[j])];
        j := j + 1;
      }
      assert news[..j] == news;
    }

    method ExpandStep() returns (complete: bool)
      requires TableOk(symSo) && RulesOk(gra)
      modifies this`gra, this`symSo
      ensures gra == Round(old(gra))
      ensures complete <==> RoundComplete(old(gra))
      ensures Cfg.AllDefined(RulesOf(old(gra))) ==> SameMarked(old(gra), gra) && AllFrom(old(gra), gra)
      ensures TableOk(symSo) && Extends(old(symSo), symSo)
    {
      complete := true;
      var newgrammar: Rules := [];
      var i := 0;
      ghost var done: Rules := [];
      ghost var g := gra;
      hide EntityVariant, EntityWidth, EntityDeferred, NewRules, RulesOk, TableOk;
      while i < |gra|
        invariant 0 <= i <= |gra| && gra == g && done == g[..i]
        invariant newgrammar == RoundFrom(g, done)
        invariant complete <==> NoneDeferred(g, done)
        invariant TableOk(symSo) && Extends(old(symSo), symSo)
      {
        hide RoundFrom, NoneDeferred;
        var newvalues;
        newvalues, complete := ExpandEntry(gra[i].body, complete);
        newgrammar := InsertAll(newgrammar, gra[i], newvalues);
        LongerRound(g, done, g[i]);
        done := done + [g[i]];
        i := i + 1;
      }
      assert done == g;
      gra := newgrammar;
      hide RoundFrom, RoundComplete, Round, SameMarked, AllFrom, Cfg.AllDefined;
      if Cfg.AllDefined(RulesOf(g)) { OneRoundComesFrom(g); }
    }

    /** Rounds until one is complete. Terminates on acyclic replacement symbols and keeps the
        language of every key. The rules end up as those after the first complete round; no
        replacement symbol is left exactly when the rules before that round nested them one
        deep, and none is left if the rules did so from the start. Then the rules are exactly the
        bodies that the rules as written stand for, each symbol with its own markers and those of
        the replacement symbols around it. */
    method Expand() returns (ghost n: nat)
      requires TableOk(symSo) && RulesOk(gra)
      requires Cfg.AllDefined(RulesOf(gra)) && Cfg.Acyclic(RulesOf(gra))
      modifies this
      ensures FirstCompleteRound(old(gra), n) && gra == Rounds(old(gra), n + 1)
      ensures SameLanguage(old(gra), gra) && SameLanguage(old(gra), Rounds(old(gra), n))
      ensures SameMarked(old(gra), gra) && AllFrom(old(gra), gra)
      ensures Cfg.ReplFree(RulesOf(gra)) ==>
                forall key, w :: GrammarRule(key, w) in gra <==> StandsFor(old(gra), true, key, w)
      ensures Cfg.ReplFree(RulesOf(gra)) <==> Cfg.Shallow(RulesOf(Rounds(old(gra), n)))
      ensures Cfg.Shallow(RulesOf(old(gra))) ==> Cfg.ReplFree(RulesOf(gra))
      ensures RulesOk(gra) && Cfg.AllDefined(RulesOf(gra))
      ensures forall r :: r in gra ==> exists o :: o in old(gra) && o.key == r.key
      ensures TableOk(symSo) && Extends(old(symSo), symSo)
      ensures IsReduceMap(symSo, gra, red) && SortedKeysFor(red, redKeys)
      ensures CleanRules(old(gra)) ==> CleanRules(gra) && RedOk(red)
      ensures KeyForms(old(gra)) ==> KeyForms(gra) && (CleanRules(old(gra)) ==> PlainTargets(red))
    {
      hide Round, RoundComplete, RulesOk, RulesOf, SameLanguage, TableOk, IsReduceMap, SortedKeysFor, RedOk,
           CleanRules, KeyForm, SameMarked, AllFrom, StandsFor,
           Cfg.AllDefined, Cfg.Acyclic, Cfg.Weighted, Cfg.Top, Cfg.Shallow, Cfg.ReplFree;
      var complete := false;
      ghost var weights := Cfg.AcyclicWeighted(RulesOf(gra));
      ghost var rules := gra;
      SameLanguageItself(gra);
      n := 0;
      while !complete
        invariant RulesOk(gra) && gra == Rounds(rules, if complete then n + 1 else n)
        invariant complete ==> RoundComplete(Rounds(rules, n)) && SameLanguage(rules, Rounds(rules, n))
        invariant forall m: nat :: m < n ==> !RoundComplete(Rounds(rules, m))
        invariant Cfg.AllDefined(RulesOf(gra)) && Cfg.Weighted(RulesOf(gra), weights)
        invariant SameLanguage(rules, gra)
        invariant CleanRules(rules) ==> CleanRules(gra)
        invariant forall r :: r in gra ==> exists o :: o in rules && o.key == r.key
        invariant TableOk(symSo) && Extends(old(symSo), symSo)
        decreases if complete then 0 else 1 + Cfg.Top(RulesOf(gra), weights)
      {
        ghost var last := gra;
        RoundFacts(gra, weights);
        complete := ExpandStep();
        SameLanguageTwice(rules, last, gra);
        if !complete { n := n + 1; }
      }
      ExpandedRules(rules, n);
      ExpandedMarked(rules, n + 1);
      BuildReducemap();
      if CleanRules(gra) {
        EntriesOk(symSo, gra, red);
        if KeyForms(gra) { EntriesPlain(symSo, gra, red); }
      }
    }

    // ---- the reduce map ---------------------------------------------------------------

    method BuildReducemap()
      requires TableOk(symSo)
      modifies this`red, this`redKeys
      ensures IsReduceMap(symSo, gra, red) && SortedKeysFor(red, redKeys)
    {
      var keySets := CollectEntries();
      hide IsReduceMap;
      redKeys := [];
      var o := 0;
      ghost var built := red;
      while o < |red|
        invariant 0 <= o <= |red| && |redKeys| == o && red == built
        invariant forall p :: 0 <= p < o ==>
                    KeysOfEntries(red[p], redKeys[p]) && LongestFirst(redKeys[p]) && Distinct(redKeys[p])
      {
        var sorted := SortByLength(keySets[o]);
        redKeys := redKeys + [sorted];
        o := o + 1;
      }
    }

    method CollectEntries() returns (keySets: seq<set<string>>)
      requires TableOk(symSo)
      modifies this`red
      ensures IsReduceMap(symSo, gra, red) && KeySetsFor(red, keySets)
    {
      red, keySets := [], [];
      var i := 0;
      while i < |gra|
        invariant 0 <= i <= |gra|
        invariant IsReduceMap(symSo, gra[..i], red) && KeySetsFor(red, keySets)
      {
        var rule := gra[i];
        assert gra[..i + 1] == gra[..i] + [rule];
        if rule.key in symSo && symSo[rule.key].repl == "" && rule.body != [] {
          var target := symSo[rule.key];
          var entry := ReduceRule(AllGetKey(rule.body), target, rule.body);
          keySets := AddEntry(keySets, GetOrder(target), entry, gra[..i], rule);
        } else {
          SkippedRule(symSo, gra[..i], rule, red);
        }
        i := i + 1;
      }
      assert gra[..i] == gra;
    }

    method AddEntry(oldSets: seq<set<string>>, order: int, entry: ReduceRule,
                    ghost rules: Rules, ghost rule: GrammarRule)
      returns (keySets: seq<set<string>>)
      requires IsReduceMap(symSo, rules, red) && KeySetsFor(red, oldSets)
      requires EntryFor(symSo, rule, order, entry) && 0 <= order
      modifies this`red
      ensures IsReduceMap(symSo, rules + [rule], red) && KeySetsFor(red, keySets)
    {
      ghost var before := red;
      keySets := oldSets;
      hide EntryFor;
      while |red| <= order
        invariant |red| >= |before| && forall o :: 0 <= o < |before| ==> red[o] == before[o]
        invariant forall o :: |before| <= o < |red| ==> red[o] == []
        invariant KeySetsFor(red, keySets)
        decreases order - |red|
      {
        red := red + [[]];
        keySets := keySets + [{}];
      }
      AddedKeys(red[order], keySets[order], entry);
      red := red[order := red[order] + [entry]];
      keySets := keySets[order := keySets[order] + {entry.keys}];
      hide HasEntry, KeySetFor, IsReduceMap;
      AddedEntry(symSo, rules, rule, before, red, order, entry);
    }

    // ---- reduction --------------------------------------------------------------------

    /** The scan of `replace_in_vector`, which would also take a match cut off by the end
        of the list. */
    method ReplaceInVector(vec: seq<Entity>, find: seq<Entity>, replacement: Entity) returns (r: seq<Entity>)
      requires TableOk(symSo) && forall e :: e in vec ==> WellFormed(e)
      modifies this`symSo
      ensures r == Replaced(vec, find, replacement)
      ensures TableOk(symSo)
    {
      hide FirstCompatible, CompatibleAt, Mark, TableOk, WellFormed, ToKey, ReplaceAt, Covered, Marked, Replaced,
           NewEntity, ToStr;
      ReplacedCases(vec, find, replacement);
      if find == [] { return vec; }
      r := [];
      var replaceDone := false;
      var i := 0;
      ghost var p := FirstCompatible(vec, find, 0);
      while i < |vec|
        invariant 0 <= i <= |vec| && TableOk(symSo)
        invariant !replaceDone ==> i <= p && r == vec[..i]
        invariant replaceDone ==> p < i && r + vec[i..] == ReplaceAt(vec, find, p, replacement)
      {
        var n := 0;
        if !replaceDone && ToKey(vec[i]) == ToKey(find[0]) {
          n := MatchLength(vec, find, i);
        } else if !replaceDone {
          FirstKeyDiffers(vec, find, i);
        }
        if n > 0 {
          var node := Fuse(vec, find, i, n, replacement);
          Spliced(vec, find, i, replacement, node);
          r := r + [node];
          replaceDone := true;
          i := i + n;
        } else {
          PushedNext(r, vec, i);
          r := r + [vec[i]];
          i := i + 1;
        }
      }
      assert vec[..i] == vec && r + vec[i..] == r;
    }

    /** How many elements match from `i` on, or 0 when a key differs. */
    method MatchLength(vec: seq<Entity>, find: seq<Entity>, i: nat) returns (n: nat)
      requires i < |vec| && find != [] && ToKey(vec[i]) == ToKey(find[0])
      ensures n > 0 <==> CompatibleAt(vec, find, i)
      ensures n > 0 ==> n == Covered(vec, find, i)
    {
      hide ToKey;
      var f, j := 1, i + 1;
      while j < |vec| && f < |find|
        invariant 1 <= f <= |find| && j == i + f <= |vec|
        invariant forall g :: 0 <= g < f ==> ToKey(vec[i + g]) == ToKey(find[g])
      {
        if ToKey(vec[j]) != ToKey(find[f]) { return 0; }
        f, j := f + 1, j + 1;
      }
      n := f;
    }

    /** The new node over the marked elements. */
    method Fuse(vec: seq<Entity>, find: seq<Entity>, i: nat, n: nat, replacement: Entity) returns (node: Entity)
      requires TableOk(symSo) && forall e :: e in vec ==> WellFormed(e)
      requires i <= |vec| && n == Covered(vec, find, i)
      modifies this`symSo
      ensures node == NewEntity(ToStr(replacement), Marked(vec, find, i))
      ensures TableOk(symSo)
    {
      var foundVec := [];
      var f := 0;
      hide Mark, TableOk, WellFormed;
      while f < n
        invariant 0 <= f <= n && TableOk(symSo)
        invariant foundVec == Marked(vec, find, i)[..f]
      {
        var e := ModifySymbol(vec[i + f], Marker(find[f]));
        foundVec := foundVec + [e];
        f := f + 1;
      }
      assert Marked(vec, find, i)[..f] == Marked(vec, find, i);
      node := MakeEntity(ToStr(replacement), foundVec);
      AddEntity(node);
    }

    method MakeEntity(description: string, embedded: seq<Entity>) returns (e: Entity)
      ensures e == NewEntity(description, embedded) && WellFormed(e) && e.embed == embedded && e.text == ""
    {
      var obj := new EntityObject(description, embedded);
      e := Entity(obj.data, obj.symbol, obj.repl, obj.virt, obj.text, obj.embed, obj.order);
      AddWellFormed(BLANK.(embed := embedded), description);
    }

    /** One matching rule of an order: it is ignored, adds its rewrite, or discards the
        rewrites by shorter bodies. */
    method Consider(rule: ReduceRule, words: seq<Entity>, reduceTo: string, lists: map<string, (nat, WordLists)>,
                    ghost seen: seq<ReduceRule>)
      returns (reduceTo': string, lists': map<string, (nat, WordLists)>)
      requires TableOk(symSo) && WordsOk(words) && RuleOk(rule) && Matches(rule, words)
      requires Progress(seen, words, reduceTo, lists)
      modifies this`symSo
      ensures Progress(seen + [rule], words, reduceTo', lists')
      ensures TableOk(symSo)
    {
      hide Progress, Matches, RuleOk, WordsOk, TableOk, ComplexityKey, Replaced, Inserted, Occurs;
      ProgressShape(seen, words, reduceTo, lists);
      NonemptyBody(rule);
      reduceTo', lists' := reduceTo, lists;
      var complexityKey := ComplexityKey(rule.target);
      if reduceTo != "" && complexityKey != reduceTo {
        WrongTarget(seen, words, reduceTo, lists, rule);
        return;
      }
      var complexity := |rule.body|;
      var best := if complexityKey in lists then lists[complexityKey].0 else 0;
      if complexity < best {
        TooShort(seen, words, reduceTo, lists, rule);
        return;
      }
      if complexity > best {
        lists' := lists' - {complexityKey};
        lists' := lists'[complexityKey := (complexity, map[])];
        reduceTo' := complexityKey;
      }
      var newWords := ReplaceWords(words, rule);
      var list := Inserted(lists'[complexityKey].1, newWords);
      if Occurs("*", complexityKey) { list := Inserted(list, words); }
      ExtendedIs(lists'[complexityKey].1, complexityKey, words, rule, newWords);
      lists' := lists'[complexityKey := (complexity, list)];
      if complexity > best {
        LongerAccepted(seen, words, reduceTo, lists, rule);
      } else {
        EqualAccepted(seen, words, reduceTo, lists, rule);
      }
      assert lists' == map[complexityKey := (complexity, list)];
    }

    method ReplaceWords(words: seq<Entity>, rule: ReduceRule) returns (r: seq<Entity>)
      requires TableOk(symSo) && WordsOk(words)
      modifies this`symSo
      ensures r == Replaced(words, rule.body, rule.target)
      ensures TableOk(symSo)
    {
      r := ReplaceInVector(words, rule.body, rule.target);
    }

    /** All keys of one order, longest key string first. */
    method TryOrder(order: nat, words: seq<Entity>)
      returns (reduceTo: string, lists: map<string, (nat, WordLists)>, ghost seen: seq<ReduceRule>)
      requires TableOk(symSo) && RedOk(red) && SortedKeysFor(red, redKeys) && WordsOk(words) && order < |red|
      modifies this`symSo
      ensures Progress(seen, words, reduceTo, lists) && TableOk(symSo)
      ensures forall r :: r in seen <==> r in red[order] && Matches(r, words)
      ensures forall r :: r in seen ==> |r.keys| <= |seen[0].keys|
    {
      var impression := AllGetKey(words);
      reduceTo, lists, seen := "", map[], [];
      var keys := redKeys[order];
      var i := 0;
      hide Progress, RedOk, WordsOk, TableOk;
      assert Progress(seen, words, reduceTo, lists) by { EmptyProgress(words); }
      while i < |keys|
        invariant 0 <= i <= |keys| && TableOk(symSo)
        invariant Progress(seen, words, reduceTo, lists)
        invariant SeenUpTo(red[order], words, keys, i, seen)
      {
        ghost var seen0 := seen;
        if Occurs(keys[i], impression) {
          reduceTo, lists, seen := TryKey(order, keys[i], words, reduceTo, lists, seen);
        }
        SeenOneMore(red[order], words, keys, i, seen0, seen);
        i := i + 1;
        hide SeenUpTo;
      }
      AllSeen(red[order], words, keys, seen);
    }

    /** Every rule under one key string that the list's keys contain. */
    method TryKey(order: nat, key: string, words: seq<Entity>, reduceTo: string,
                  lists: map<string, (nat, WordLists)>, ghost seen: seq<ReduceRule>)
      returns (reduceTo': string, lists': map<string, (nat, WordLists)>, ghost seen': seq<ReduceRule>)
      requires TableOk(symSo) && RedOk(red) && WordsOk(words) && order < |red|
      requires Occurs(key, AllGetKey(words)) && Progress(seen, words, reduceTo, lists)
      modifies this`symSo
      ensures Progress(seen', words, reduceTo', lists') && TableOk(symSo)
      ensures seen' == seen + WithKeys(red[order], key)
    {
      hide Progress, RuleOk, WordsOk, TableOk, Matches, WithKeys, RedOk, AllGetKey, Occurs;
      reduceTo', lists', seen' := reduceTo, lists, seen;
      var rules := WithKeys(red[order], key);
      UsableRules(red, order, key, words);
      ghost var done: seq<ReduceRule> := [];
      var j := 0;
      while j < |rules|
        invariant 0 <= j <= |rules| && TableOk(symSo)
        invariant Progress(seen', words, reduceTo', lists')
        invariant done == rules[..j] && seen' == seen + done
      {
        assert rules[j] in rules;
        reduceTo', lists' := Consider(rules[j], words, reduceTo', lists', seen');
        done := done + [rules[j]];
        assert seen' + [rules[j]] == seen + done;
        seen' := seen' + [rules[j]];
        j := j + 1;
      }
      assert done == rules;
    }

    /** The rewrites by the longest matching bodies for one target of the lowest order
        that has a match. */
    method ReduceStep(words: seq<Entity>) returns (result: WordLists)
      requires TableOk(symSo) && RedOk(red) && SortedKeysFor(red, redKeys) && WordsOk(words)
      modifies this`symSo
      ensures StepResult(red, words, result) && StepApplies(red, words, result)
      ensures TableOk(symSo)
    {
      var found := false;
      var order := 0;
      result := map[];
      while !found && order < |red|
        invariant 0 <= order <= |red| && TableOk(symSo)
        invariant !found ==> result == map[]
        invariant !found ==> forall k :: 0 <= k < order ==> !HasMatch(red[k], words)
        invariant found ==> StepResult(red, words, result)
        decreases !found, |red| - order
      {
        var reduceTo, lists;
        ghost var seen;
        reduceTo, lists, seen := TryOrder(order, words);
        hide SortedKeysFor, RuleOk, WordsOk, TableOk;
        if reduceTo != "" {
          found := true;
          result := lists[reduceTo].1;
          OrderResult(red, words, order, reduceTo, lists, seen);
        } else {
          NothingSeen(red, words, order, lists, seen);
          order := order + 1;
        }
      }
      if !found {
        forall o ensures !LowestOrder(red, words, o) {}
      }
      ResultApplies(red, words, result);
    }

    /** Rounds of `reduce_step` on all possibilities at once, at most 51 of them. */
    method Reduce(words: seq<Entity>) returns (final: seq<seq<Entity>>, ghost rounds: seq<WordLists>)
      requires TableOk(symSo) && RedOk(red) && SortedKeysFor(red, redKeys) && WordsOk(words)
      modifies this`symSo
      ensures IsHistory(red, words, rounds)
      ensures |rounds| <= 52 && (|rounds| == 52 || rounds[|rounds| - 1] == map[])
      ensures forall ws :: ws in final <==> FinishedIn(rounds, ws)
      ensures TableOk(symSo)
    {
      hide RedOk, SortedKeysFor, WordsOk, TableOk, AllToStr, Finished;
      final := [];
      var wordsList: WordLists := map[AllToStr(words) := words];
      rounds := [wordsList];
      var step := 0;
      while step <= 50
        invariant 0 <= step <= 51 && |rounds| == step + 1 && rounds[step] == wordsList
        invariant IsHistory(red, words, rounds)
        invariant forall ws :: ws in final <==> FinishedIn(rounds, ws)
        invariant TableOk(symSo)
        decreases 51 - step
      {
        if wordsList == map[] { break; }
        var newList := ReduceAll(words, wordsList, rounds);
        var found := CollectFinished(newList);
        NextHistory(red, words, rounds, newList);
        NextFinished(rounds, newList, final, found);
        rounds := rounds + [newList];
        final := final + found;
        wordsList := newList;
        step := step + 1;
      }
    }

    /** One round on every possibility; of lists with the same printed form one stays. */
    method ReduceAll(words: seq<Entity>, wordsList: WordLists, ghost rounds: seq<WordLists>)
      returns (newList: WordLists)
      requires TableOk(symSo) && RedOk(red) && SortedKeysFor(red, redKeys) && WordsOk(words)
      requires rounds != [] && rounds[|rounds| - 1] == wordsList && IsHistory(red, words, rounds)
      modifies this`symSo
      ensures IsRound(red, wordsList, newList)
      ensures TableOk(symSo)
    {
      hide RedOk, SortedKeysFor, TableOk, StepResult, IsHistory;
      newList := map[];
      var todo := wordsList.Keys;
      while todo != {}
        invariant todo <= wordsList.Keys && TableOk(symSo)
        invariant forall q :: q in newList ==> exists p :: p in wordsList && RoundLeadsTo(red, wordsList[p], newList[q])
        invariant forall p :: p in wordsList.Keys - todo ==>
                    exists t :: StepResult(red, wordsList[p], t) && t.Keys <= newList.Keys
        decreases todo
      {
        var p: string :| p in todo;
        ListedWordsOk(red, words, rounds, p);
        var temp := ReduceStep(wordsList[p]);
        forall q | q in temp ensures RoundLeadsTo(red, wordsList[p], temp[q]) {}
        newList := temp + newList;
        todo := todo - {p};
      }
    }

    /** The lists that are one "s-all". */
    method CollectFinished(list: WordLists) returns (found: seq<seq<Entity>>)
      ensures forall ws :: ws in found <==> exists p :: p in list && list[p] == ws && Finished(ws)
    {
      found := [];
      var todo := list.Keys;
      while todo != {}
        invariant todo <= list.Keys
        invariant forall ws :: ws in found <==> exists p :: p in list.Keys - todo && list[p] == ws && Finished(ws)
        decreases todo
      {
        var p: string :| p in todo;
        if |list[p]| == 1 && ToKey(list[p][0]) == "s-all" {
          found := found + [list[p]];
        }
        todo := todo - {p};
      }
    }

    // ---- input ---------------------------------------------------------------------------

    /** A word is registered by its tag before it gets its text. */
    method MakeWord(tag: string, text: string) returns (e: Entity)
      requires TableOk(symSo)
      modifies this`symSo
      ensures e == NewEntity(tag, []).(text := text)
      ensures symSo == Registered(old(symSo), NewEntity(tag, [])) && TableOk(symSo)
    {
      hide TableOk;
      var obj := new EntityObject(tag, []);
      AddWellFormed(BLANK.(embed := []), tag);
      AddEntity(Entity(obj.data, obj.symbol, obj.repl, obj.virt, obj.text, obj.embed, obj.order));
      obj.SetText(text);
      e := Entity(obj.data, obj.symbol, obj.repl, obj.virt, obj.text, obj.embed, obj.order);
    }

    /** The tagged words of an input string between the two end markers. */
    method ParseInput(wordsStr: string) returns (words: seq<Entity>)
      requires TableOk(symSo)
      modifies this`symSo
      ensures words == ParsedInput(wordsStr)
      ensures TableOk(symSo)
    {
      hide TableOk, WellFormed, NewEntity, Trim, Registered;
      var obj := MakeEntity("d-^", []);
      AddEntity(obj);
      words := [obj];
      var pieces := Split(wordsStr, {'#', '>'});
      var i := 0;
      while i < |pieces|
        invariant 0 <= i <= |pieces| && TableOk(symSo)
        invariant words + TaggedWords(pieces[i..]) == [NewEntity("d-^", [])] + TaggedWords(pieces)
      {
        assert pieces[i..][0] == pieces[i] && pieces[i..][1..] == pieces[i + 1..];
        if pieces[i] != "" && pieces[i] != "null" {
          var parts := Split(pieces[i], {'|', '<'});
          if |parts| == 2 {
            var word := MakeWord(Trim(parts[0], WHITESPACE), Trim(parts[1], WHITESPACE));
            words := words + [word];
          }
        }
        i := i + 1;
      }
      assert pieces[i..] == [] && words + [] == words;
      obj := MakeEntity("d-$", []);
      AddEntity(obj);
      words := words + [obj];
    }

    /** Every result is a derivation of "s-all" from rules of the reduce map whose leaves
        are the two markers and, in order, the accepted words, and in which every symbol has the
        markers of the rule element that it was matched with. */
    method Parse(wordsStr: string) returns (final: seq<seq<Entity>>, ghost rounds: seq<WordLists>)
      requires TableOk(symSo) && RedOk(red) && SortedKeysFor(red, redKeys)
      requires WordsOk(ParsedInput(wordsStr))
      modifies this`symSo
      ensures IsHistory(red, ParsedInput(wordsStr), rounds)
      ensures |rounds| <= 52 && (|rounds| == 52 || rounds[|rounds| - 1] == map[])
      ensures forall ws :: ws in final <==> FinishedIn(rounds, ws)
      ensures forall ws :: ws in final ==>
                |ws| == 1 && IsParseTree(red, ParsedInput(wordsStr), ws[0]) && Leaves(ws[0]) == InputLeaves(wordsStr)
      ensures forall ws :: ws in final ==> |ws| == 1 && Built(red, ParsedInput(wordsStr), ws[0], [])
      ensures PlainTargets(red) ==> forall ws: seq<Entity> :: ws in final ==> |ws| == 1 && ws[0].virt == []
      ensures TableOk(symSo)
    {
      hide TableOk, RedOk, SortedKeysFor, WordsOk, IsHistory, FinishedIn, ParsedInput, IsParseTree, PlainTargets, Built;
      var words := ParseInput(wordsStr);
      final, rounds := Reduce(words);
      InputIsUnparsed(wordsStr);
      forall ws | ws in final
        ensures |ws| == 1 && IsParseTree(red, words, ws[0]) && Leaves(ws[0]) == InputLeaves(wordsStr)
        ensures Built(red, words, ws[0], [])
      {
        FinishedIsBuilt(red, words, rounds, ws);
        FinishedIsParse(red, words, rounds, ws);
        ParseLeaves(red, words, ws[0]);
      }
      if PlainTargets(red) {
        AtLeastTwoWords(wordsStr);
        forall ws: seq<Entity> | ws in final ensures |ws| == 1 && ws[0].virt == [] {
          FinishedUnmarked(red, words, rounds, ws);
        }
      }
    }
  }

  lemma ParseLeaves(red: ReduceMap, words: seq<Entity>, e: Entity)
    requires IsParseTree(red, words, e)
    ensures Leaves(e) == AllLeaves(words)
  {
  }

  lemma ListedWordsOk(red: ReduceMap, words: seq<Entity>, rounds: seq<WordLists>, p: string)
    requires RedOk(red) && WordsOk(words) && IsHistory(red, words, rounds) && rounds != []
    requires p in rounds[|rounds| - 1]
    ensures WordsOk(rounds[|rounds| - 1][p])
  {
    hide WordsOk, RedOk, IsHistory, AllLeaves, AllGenuine, Reaches;
    HistoryReaches(red, words, rounds, |rounds| - 1, p);
    RunsKeep(red, words, |rounds| - 1, rounds[|rounds| - 1][p]);
  }

  lemma NextHistory(red: ReduceMap, words: seq<Entity>, rounds: seq<WordLists>, next: WordLists)
    requires IsHistory(red, words, rounds) && IsRound(red, rounds[|rounds| - 1], next)
    ensures IsHistory(red, words, rounds + [next])
  {
    hide IsRound, AllToStr;
  }

  lemma NextFinished(rounds: seq<WordLists>, next: WordLists, final: seq<seq<Entity>>, found: seq<seq<Entity>>)
    requires rounds != []
    requires forall ws :: ws in final <==> FinishedIn(rounds, ws)
    requires forall ws :: ws in found <==> exists p :: p in next && next[p] == ws && Finished(ws)
    ensures forall ws :: ws in final + found <==> FinishedIn(rounds + [next], ws)
  {
    hide Finished;
    forall ws ensures ws in final + found <==> FinishedIn(rounds + [next], ws) {
      var all := rounds + [next];
      if ws in final {
        var k, p :| 1 <= k < |rounds| && p in rounds[k] && rounds[k][p] == ws && Finished(ws);
        assert all[k] == rounds[k];
      }
      if ws in found {
        var p :| p in next && next[p] == ws && Finished(ws);
        assert all[|rounds|] == next;
      }
      if FinishedIn(all, ws) {
        var k, p :| 1 <= k < |all| && p in all[k] && all[k][p] == ws && Finished(ws);
        if k < |rounds| { assert rounds[k] == all[k]; assert FinishedIn(rounds, ws); }
      }
    }
  }

  const WHITESPACE: set<char> := {' ', '\t', '\n', '\r', 11 as char, 12 as char}

  /** The words of the well-formed pieces: a tag and a text around one bar. */
  function TaggedWords(pieces: seq<string>): seq<Entity> {
    if pieces == [] then []
    else
      var rest := TaggedWords(pieces[1..]);
      var parts := Split(pieces[0], {'|', '<'});
      if pieces[0] == "" || pieces[0] == "null" || |parts| != 2 then rest
      else [NewEntity(Trim(parts[0], WHITESPACE), []).(text := Trim(parts[1], WHITESPACE))] + rest
  }

  function ParsedInput(s: string): seq<Entity> {
    [NewEntity("d-^", [])] + TaggedWords(Split(s, {'#', '>'})) + [NewEntity("d-$", [])]
  }

  /** Key and text of each accepted piece, in order. */
  function AcceptedWords(pieces: seq<string>): seq<(string, string)> {
    if pieces == [] then []
    else
      var rest := AcceptedWords(pieces[1..]);
      var parts := Split(pieces[0], {'|', '<'});
      if pieces[0] == "" || pieces[0] == "null" || |parts| != 2 then rest
      else [(ToKey(NewEntity(Trim(parts[0], WHITESPACE), [])), Trim(parts[1], WHITESPACE))] + rest
  }

  function InputLeaves(s: string): seq<(string, string)> {
    [("d-^", "")] + AcceptedWords(Split(s, {'#', '>'})) + [("d-$", "")]
  }

  lemma LeafEntity(tag: string, text: string)
    ensures var e := NewEntity(tag, []).(text := text);
            WellFormed(e) && e.embed == [] && Leaves(e) == [(ToKey(NewEntity(tag, [])), text)]
  {
    AddWellFormed(BLANK.(embed := []), tag);
  }

  lemma {:induction false} TaggedAreLeaves(pieces: seq<string>)
    ensures Unparsed(TaggedWords(pieces)) && AllLeaves(TaggedWords(pieces)) == AcceptedWords(pieces)
    decreases |pieces|
  {
    if pieces != [] {
      TaggedAreLeaves(pieces[1..]);
      var parts := Split(pieces[0], {'|', '<'});
      if pieces[0] != "" && pieces[0] != "null" && |parts| == 2 {
        LeafEntity(Trim(parts[0], WHITESPACE), Trim(parts[1], WHITESPACE));
        hide NewEntity, Trim;
        assert TaggedWords(pieces)[1..] == TaggedWords(pieces[1..]);
      }
    }
  }

  lemma MarkerLeaf(tag: string)
    requires tag == "d-^" || tag == "d-$"
    ensures var e := NewEntity(tag, []); e.embed == [] && AllLeaves([e]) == [(tag, "")]
  {
    var e := BLANK.(data := tag);
    PlainTag(tag);
    ToStrRoundTrip(e);
    assert ToStr(e) == tag by { assert Slashed([]) == ""; assert tag + "" + "" == tag; }
    hide NewEntity;
    assert [NewEntity(tag, [])] == [e] && [e][1..] == [];
    assert AllLeaves([e]) == Leaves(e) + AllLeaves([]);
  }

  lemma PlainTag(tag: string)
    requires tag == "d-^" || tag == "d-$"
    ensures WellFormed(BLANK.(data := tag))
  {
    assert tag[0] == 'd' && tag[1] == '-' && "null"[0] == 'n' && !IsDigit(tag[0]);
  }

  lemma AtLeastTwoWords(s: string)
    ensures |ParsedInput(s)| >= 2
  {
  }

  lemma InputIsUnparsed(s: string)
    ensures Unparsed(ParsedInput(s)) && AllLeaves(ParsedInput(s)) == InputLeaves(s)
  {
    var pieces := Split(s, {'#', '>'});
    TaggedAreLeaves(pieces);
    MarkerLeaf("d-^");
    MarkerLeaf("d-$");
    var first, last := NewEntity("d-^", []), NewEntity("d-$", []);
    hide NewEntity, AllLeaves, TaggedWords, AcceptedWords, Split;
    AllLeavesConcat([first] + TaggedWords(pieces), [last]);
    AllLeavesConcat([first], TaggedWords(pieces));
  }
}
