/** How long `reduce` can run: a potential on token lists that every round lowers, which
    exists where no chain of one-symbol rules comes back to its start, and a bound on the
    number of rounds that follows from it. */
module ReduceBound {
  import opened Text
  import opened Entities
  import opened Reduction
  import Cfg

  ghost predicate NoStar(red: ReduceMap) {
    forall rule :: InRed(red, rule) ==> !Occurs("*", ComplexityKey(rule.target))
  }

  /** One-element rules do not go in circles: keys can be ranked so that each of these
      rules leads from a key to one of a lower rank. */
  ghost predicate UnitAcyclic(red: ReduceMap) {
    exists rank: map<string, nat> :: UnitRanked(red, rank)
  }

  ghost predicate UnitRanked(red: ReduceMap, rank: map<string, nat>) {
    forall rule :: InRed(red, rule) && |rule.body| == 1 ==>
      Cfg.RankOf(rank, ToKey(rule.target)) < Cfg.RankOf(rank, ToKey(rule.body[0]))
  }

  /** The distinct keys of the rules and the words. */
  ghost function KeySet(red: ReduceMap, words: seq<Entity>): set<string> {
    (set o, j | 0 <= o < |red| && 0 <= j < |red[o]| :: ToKey(red[o][j].target)) +
    (set o, j, b | 0 <= o < |red| && 0 <= j < |red[o]| && b in red[o][j].body :: ToKey(b)) +
    (set w | w in words :: ToKey(w))
  }

  ghost function LowerKeys(keys: set<string>, rank: map<string, nat>, key: string): set<string> {
    set k | k in keys && Cfg.RankOf(rank, k) < Cfg.RankOf(rank, key)
  }

  /** Between U + 1 and 2U for a key among the U keys. */
  ghost function KeyWeight(keys: set<string>, rank: map<string, nat>, key: string): nat {
    |keys| + 1 + |LowerKeys(keys, rank, key)|
  }

  lemma WeightBounds(keys: set<string>, rank: map<string, nat>, key: string)
    requires key in keys
    ensures |keys| + 1 <= KeyWeight(keys, rank, key) <= 2 * |keys|
  {
    var lower := LowerKeys(keys, rank, key);
    assert lower <= keys - {key};
    Subset(lower, keys - {key});
  }

  lemma Subset(a: set<string>, b: set<string>)
    requires a <= b
    ensures |a| <= |b|
  {
    assert b == a + (b - a);
  }

  lemma WeightIncreases(keys: set<string>, rank: map<string, nat>, a: string, b: string)
    requires a in keys && Cfg.RankOf(rank, a) < Cfg.RankOf(rank, b)
    ensures KeyWeight(keys, rank, a) < KeyWeight(keys, rank, b)
  {
    var la, lb := LowerKeys(keys, rank, a), LowerKeys(keys, rank, b);
    assert la + {a} <= lb && a !in la;
    Subset(la + {a}, lb);
  }

  ghost function Potential(keys: set<string>, rank: map<string, nat>, ks: seq<string>): nat {
    if ks == [] then 0 else KeyWeight(keys, rank, ks[0]) + Potential(keys, rank, ks[1..])
  }

  lemma {:induction false} PotentialConcat(keys: set<string>, rank: map<string, nat>, a: seq<string>, b: seq<string>)
    ensures Potential(keys, rank, a + b) == Potential(keys, rank, a) + Potential(keys, rank, b)
    decreases |a|
  {
    if a == [] {
      assert a + b == b;
    } else {
      PotentialConcat(keys, rank, a[1..], b);
      assert (a + b)[1..] == a[1..] + b && (a + b)[0] == a[0];
    }
  }

  lemma {:induction false} PotentialBounds(keys: set<string>, rank: map<string, nat>, ks: seq<string>)
    requires forall k :: k in ks ==> k in keys
    ensures Potential(keys, rank, ks) <= 2 * |keys| * |ks|
    decreases |ks|
  {
    if ks != [] {
      assert ks[0] in ks;
      WeightBounds(keys, rank, ks[0]);
      PotentialBounds(keys, rank, ks[1..]);
      assert 2 * |keys| * |ks| == 2 * |keys| * |ks[1..]| + 2 * |keys|;
    }
  }

  lemma TwoKeysWeigh(keys: set<string>, rank: map<string, nat>, ks: seq<string>)
    requires |ks| >= 2
    ensures Potential(keys, rank, ks) >= 2 * |keys| + 2
  {
    assert ks[1..][0] == ks[1];
  }

  lemma RuleKeysKnown(red: ReduceMap, words: seq<Entity>, rule: ReduceRule)
    requires InRed(red, rule)
    ensures ToKey(rule.target) in KeySet(red, words)
    ensures forall k :: k in Keys(rule.body) ==> k in KeySet(red, words)
  {
    var o :| 0 <= o < |red| && rule in red[o];
    var j :| 0 <= j < |red[o]| && red[o][j] == rule;
    forall k | k in Keys(rule.body) ensures k in KeySet(red, words) {
      var i :| 0 <= i < |rule.body| && Keys(rule.body)[i] == k;
      assert rule.body[i] in red[o][j].body;
    }
  }

  /** A body weighs more than its target: two keys weigh more than any one, and a
      one-element rule leads to a key of lower rank. */
  lemma BodyOutweighsTarget(red: ReduceMap, words: seq<Entity>, rank: map<string, nat>, rule: ReduceRule)
    requires UnitRanked(red, rank) && InRed(red, rule) && rule.body != []
    ensures var keys := KeySet(red, words);
            KeyWeight(keys, rank, ToKey(rule.target)) < Potential(keys, rank, Keys(rule.body))
  {
    var keys, ks := KeySet(red, words), Keys(rule.body);
    RuleKeysKnown(red, words, rule);
    hide KeySet;
    if |rule.body| == 1 {
      WeightIncreases(keys, rank, ToKey(rule.target), ks[0]);
      assert ks[1..] == [];
    } else {
      WeightBounds(keys, rank, ToKey(rule.target));
      TwoKeysWeigh(keys, rank, ks);
    }
  }

  lemma KeysConcat(a: seq<Entity>, b: seq<Entity>)
    ensures Keys(a + b) == Keys(a) + Keys(b)
  {
  }

  lemma RewriteLowers(red: ReduceMap, input: seq<Entity>, rank: map<string, nat>, rule: ReduceRule, words: seq<Entity>)
    requires UnitRanked(red, rank) && InRed(red, rule) && RuleOk(rule) && WordsOk(words) && Matches(rule, words)
    ensures var next := Replaced(words, rule.body, rule.target);
            var keys := KeySet(red, input);
            Potential(keys, rank, Keys(next)) < Potential(keys, rank, Keys(words)) &&
            ((forall k :: k in Keys(words) ==> k in keys) ==> forall k :: k in Keys(next) ==> k in keys)
  {
    var a, mid, node, c := RewriteShape(red, rule, words);
    var keys := KeySet(red, input);
    hide KeySet, Replaced, Keys;
    KeysConcat(a + mid, c);
    KeysConcat(a, mid);
    KeysConcat(a + [node], c);
    KeysConcat(a, [node]);
    SingleKey(node);
    PotentialConcat(keys, rank, Keys(a) + Keys(mid), Keys(c));
    PotentialConcat(keys, rank, Keys(a), Keys(mid));
    PotentialConcat(keys, rank, Keys(a) + [ToKey(node)], Keys(c));
    PotentialConcat(keys, rank, Keys(a), [ToKey(node)]);
    assert [ToKey(node)][1..] == [];
    BodyOutweighsTarget(red, input, rank, rule);
    RuleKeysKnown(red, input, rule);
  }

  lemma SingleKey(e: Entity)
    ensures Keys([e]) == [ToKey(e)]
  {
  }

  lemma WordKeysKnown(red: ReduceMap, words: seq<Entity>)
    ensures forall x :: x in Keys(words) ==> x in KeySet(red, words)
  {
    forall x | x in Keys(words) ensures x in KeySet(red, words) {
      var i :| 0 <= i < |words| && Keys(words)[i] == x;
      assert words[i] in words;
    }
  }

  lemma RoundLowers(red: ReduceMap, input: seq<Entity>, rank: map<string, nat>, words: seq<Entity>, next: seq<Entity>)
    requires RedOk(red) && NoStar(red) && UnitRanked(red, rank) && WordsOk(words) && RoundLeadsTo(red, words, next)
    ensures var keys := KeySet(red, input);
            Potential(keys, rank, Keys(next)) < Potential(keys, rank, Keys(words)) && next != [] &&
            ((forall k :: k in Keys(words) ==> k in keys) ==> forall k :: k in Keys(next) ==> k in keys)
  {
    var rule := RoundRewrites(red, words, next);
    RewriteLowers(red, input, rank, rule, words);
    RewriteKeepsNonempty(red, rule, words);
  }

  lemma {:induction false} RunLowers(red: ReduceMap, words: seq<Entity>, rank: map<string, nat>, k: nat,
                                     next: seq<Entity>)
    requires RedOk(red) && NoStar(red) && UnitRanked(red, rank) && WordsOk(words)
    requires Reaches(red, words, k, next)
    ensures var keys := KeySet(red, words);
            Potential(keys, rank, Keys(next)) + k <= Potential(keys, rank, Keys(words)) &&
            (forall x :: x in Keys(next) ==> x in keys) && (words != [] ==> next != [])
  {
    hide RoundLeadsTo, KeySet, Potential, Keys, WordsOk, RedOk, NoStar, UnitRanked;
    if k == 0 {
      WordKeysKnown(red, words);
    } else {
      var mid :| Reaches(red, words, k - 1, mid) && RoundLeadsTo(red, mid, next);
      RunLowers(red, words, rank, k - 1, mid);
      RunsKeep(red, words, k - 1, mid);
      RoundLowers(red, words, rank, mid, next);
    }
  }

  lemma RewriteKeepsNonempty(red: ReduceMap, rule: ReduceRule, words: seq<Entity>)
    requires InRed(red, rule) && RuleOk(rule) && WordsOk(words) && Matches(rule, words)
    ensures Replaced(words, rule.body, rule.target) != []
  {
    var a, mid, node, c := RewriteShape(red, rule, words);
  }

  /** Without "*" targets and circles of one-element rules no run lasts 2 * U * length
      rounds, U being the number of distinct keys: the possibilities run out by
      themselves, and the cap on the rounds can only cut longer runs. */
  lemma RunsAreShort(red: ReduceMap, words: seq<Entity>, k: nat, next: seq<Entity>)
    requires RedOk(red) && NoStar(red) && UnitAcyclic(red) && WordsOk(words) && words != []
    requires Reaches(red, words, k, next)
    ensures k < 2 * |KeySet(red, words)| * |words|
  {
    var rank :| UnitRanked(red, rank);
    var keys := KeySet(red, words);
    RunLowers(red, words, rank, k, next);
    RunLowers(red, words, rank, 0, words);
    PotentialBounds(keys, rank, Keys(words));
    assert Potential(keys, rank, Keys(next)) > 0;
  }

  /** So in the passes of `reduce` no possibility is left after that many rounds. */
  lemma PossibilitiesRunOut(red: ReduceMap, words: seq<Entity>, rounds: seq<WordLists>, k: nat)
    requires RedOk(red) && NoStar(red) && UnitAcyclic(red) && WordsOk(words) && words != []
    requires IsHistory(red, words, rounds) && k < |rounds|
    requires k >= 2 * |KeySet(red, words)| * |words|
    ensures rounds[k] == map[]
  {
    hide RedOk, NoStar, UnitAcyclic, WordsOk, IsHistory, KeySet, Reaches;
    if p :| p in rounds[k] {
      HistoryReaches(red, words, rounds, k, p);
      RunsAreShort(red, words, k, rounds[k][p]);
      assert false;
    }
  }
}
