/** Bottom-up reduction of token lists: what one replacement, one round and a whole
    run of `reduce` compute, and what every run keeps. */
module Reduction {
  import opened Text
  import opened Matching
  import opened Entities

  /** An entry of the reduce map: the body's key string, the target and the body. */
  datatype ReduceRule = ReduceRule(keys: string, target: Entity, body: seq<Entity>)

  type ReduceMap = seq<seq<ReduceRule>>
  type WordLists = map<string, seq<Entity>>

  function Keys(es: seq<Entity>): (ks: seq<string>)
    ensures |ks| == |es|
  {
    seq(|es|, i requires 0 <= i < |es| => ToKey(es[i]))
  }

  function AllGetKey(es: seq<Entity>): string {
    Delimited(Keys(es))
  }

  function AllToStr(es: seq<Entity>): string {
    Delimited(seq(|es|, i requires 0 <= i < |es| => ToStr(es[i])))
  }

  // ---- replace_in_vector -------------------------------------------------------

  /** The keys of `find` agree with those of `vec` from `i` on, as far as `vec` goes. */
  predicate CompatibleAt(vec: seq<Entity>, find: seq<Entity>, i: int) {
    0 <= i < |vec| && forall f :: 0 <= f < |find| && i + f < |vec| ==> ToKey(vec[i + f]) == ToKey(find[f])
  }

  predicate FullAt(vec: seq<Entity>, find: seq<Entity>, i: int) {
    CompatibleAt(vec, find, i) && i + |find| <= |vec|
  }

  function FirstCompatible(vec: seq<Entity>, find: seq<Entity>, i: nat): (j: nat)
    requires i <= |vec|
    ensures i <= j <= |vec|
    ensures j < |vec| ==> CompatibleAt(vec, find, j)
    ensures forall k :: i <= k < j ==> !CompatibleAt(vec, find, k)
    decreases |vec| - i
  {
    if i == |vec| || CompatibleAt(vec, find, i) then i else FirstCompatible(vec, find, i + 1)
  }

  function Covered(vec: seq<Entity>, find: seq<Entity>, i: int): (n: nat)
    requires 0 <= i <= |vec|
  {
    if |find| <= |vec| - i then |find| else |vec| - i
  }

  function Marked(vec: seq<Entity>, find: seq<Entity>, i: int): (m: seq<Entity>)
    requires 0 <= i <= |vec|
    ensures |m| == Covered(vec, find, i)
  {
    seq(Covered(vec, find, i), f requires 0 <= f < Covered(vec, find, i) =>
      Mark(vec[i + f], Marker(find[f])))
  }

  function ReplaceAt(vec: seq<Entity>, find: seq<Entity>, i: int, target: Entity): seq<Entity>
    requires 0 <= i <= |vec|
  {
    vec[..i] + [NewEntity(ToStr(target), Marked(vec, find, i))] + vec[i + Covered(vec, find, i)..]
  }

  /** What `replace_in_vector` returns: only the first compatible place is rewritten. */
  function Replaced(vec: seq<Entity>, find: seq<Entity>, target: Entity): seq<Entity> {
    var i := FirstCompatible(vec, find, 0);
    if find == [] || i == |vec| then vec else ReplaceAt(vec, find, i, target)
  }

  /** Once a complete occurrence exists, the first compatible place is the leftmost one:
      a match cut off by the end of the list can only come after it. */
  lemma FirstIsLeftmostFull(vec: seq<Entity>, find: seq<Entity>)
    requires find != []
    ensures var i := FirstCompatible(vec, find, 0);
            FullAt(vec, find, i) <==> exists k :: FullAt(vec, find, k)
    ensures forall k :: FullAt(vec, find, k) ==> FirstCompatible(vec, find, 0) <= k
  {
  }

  /** Without that guard the scan accepts a match cut off at the end: [d-a d-b] "found"
      in [d-a] replaces a list it does not occur in. */
  lemma TailMatchIsReplaced(a: Entity, b: Entity, target: Entity)
    ensures Replaced([a], [a, b], target) == [NewEntity(ToStr(target), [Mark(a, Marker(a))])]
    ensures !exists k :: FullAt([a], [a, b], k)
  {
    var vec, find := [a], [a, b];
    assert CompatibleAt(vec, find, 0);
    assert Marked(vec, find, 0) == [Mark(a, Marker(a))];
  }

  // ---- rules and words that the engine works on ----------------------------------

  predicate ElementOk(e: Entity) {
    WellFormed(e) && NoneOf(ToKey(e), {' '})
  }

  predicate WordsOk(ws: seq<Entity>) {
    forall w :: w in ws ==> ElementOk(w)
  }

  predicate RuleOk(rule: ReduceRule) {
    && rule.body != [] && rule.keys == AllGetKey(rule.body)
    && ElementOk(rule.target) && rule.target.embed == []
    && WordsOk(rule.body) && forall b :: b in rule.body ==> b.embed == []
  }

  predicate InRed(red: ReduceMap, rule: ReduceRule) {
    exists o | 0 <= o < |red| :: rule in red[o]
  }

  ghost predicate RedOk(red: ReduceMap) {
    forall rule :: InRed(red, rule) ==> RuleOk(rule)
  }

  predicate Matches(rule: ReduceRule, words: seq<Entity>) {
    Occurs(rule.keys, AllGetKey(words))
  }

  lemma KeysClean(es: seq<Entity>)
    requires WordsOk(es)
    ensures Clean(Keys(es))
  {
    forall k | k in Keys(es) ensures NoneOf(k, {' '}) {
      var i :| 0 <= i < |es| && k == Keys(es)[i];
      assert es[i] in es;
    }
  }

  lemma FullIsSublist(vec: seq<Entity>, find: seq<Entity>, i: int)
    requires find != []
    ensures FullAt(vec, find, i) <==> SublistAt(Keys(find), Keys(vec), i)
  {
    hide ToKey;
    if FullAt(vec, find, i) {
      assert Keys(vec)[i..i + |find|] == Keys(find);
    }
    if SublistAt(Keys(find), Keys(vec), i) {
      forall f | 0 <= f < |find| ensures ToKey(vec[i + f]) == ToKey(find[f]) {
        assert Keys(vec)[i..i + |find|][f] == Keys(find)[f];
      }
    }
  }

  /** `reduce_step`'s string search succeeds exactly when the body occurs complete, and
      then `replace_in_vector` rewrites its leftmost complete occurrence. */
  lemma MatchIsLeftmostOccurrence(rule: ReduceRule, words: seq<Entity>)
    requires RuleOk(rule) && WordsOk(words)
    ensures Matches(rule, words) <==> exists i :: FullAt(words, rule.body, i)
    ensures Matches(rule, words) ==>
              var i := FirstCompatible(words, rule.body, 0);
              FullAt(words, rule.body, i) && (forall k :: FullAt(words, rule.body, k) ==> i <= k) &&
              Replaced(words, rule.body, rule.target) == ReplaceAt(words, rule.body, i, rule.target)
  {
    KeysClean(rule.body);
    KeysClean(words);
    SearchIffSublist(Keys(rule.body), Keys(words));
    forall i ensures FullAt(words, rule.body, i) <==> SublistAt(Keys(rule.body), Keys(words), i) {
      FullIsSublist(words, rule.body, i);
    }
    FirstIsLeftmostFull(words, rule.body);
  }

  // ---- derivation trees -----------------------------------------------------------

  /** Every inner node has no text of its own, and its key and its children's keys are those
      of one rule. */
  ghost predicate Genuine(red: ReduceMap, e: Entity) {
    e.embed == [] ||
    (e.text == "" &&
     (exists rule :: InRed(red, rule) && ToKey(rule.target) == ToKey(e) && Keys(rule.body) == Keys(e.embed)) &&
     forall c :: c in e.embed ==> Genuine(red, c))
  }

  ghost predicate AllGenuine(red: ReduceMap, es: seq<Entity>) {
    forall e :: e in es ==> Genuine(red, e)
  }

  /** Keys and texts of the leaves, from left to right. */
  function Leaves(e: Entity): seq<(string, string)> {
    if e.embed == [] then [(ToKey(e), e.text)] else AllLeaves(e.embed)
  }

  function AllLeaves(es: seq<Entity>): seq<(string, string)> {
    if es == [] then [] else Leaves(es[0]) + AllLeaves(es[1..])
  }

  lemma {:induction false} AllLeavesConcat(a: seq<Entity>, b: seq<Entity>)
    ensures AllLeaves(a + b) == AllLeaves(a) + AllLeaves(b)
    decreases |a|
  {
    if a == [] {
      assert a + b == b;
    } else {
      AllLeavesConcat(a[1..], b);
      assert (a + b)[1..] == a[1..] + b && (a + b)[0] == a[0];
    }
  }

  lemma {:induction false} SameLeaves(a: seq<Entity>, b: seq<Entity>)
    requires |a| == |b| && forall i :: 0 <= i < |a| ==> Leaves(a[i]) == Leaves(b[i])
    ensures AllLeaves(a) == AllLeaves(b)
    decreases |a|
  {
    if a != [] { SameLeaves(a[1..], b[1..]); }
  }

  /** The children of the new node: marked, but with the keys, leaves and derivations
      they had. */
  lemma MarkedKeep(red: ReduceMap, vec: seq<Entity>, find: seq<Entity>, i: int)
    requires find != [] && FullAt(vec, find, i) && WordsOk(vec) && WordsOk(find)
    requires forall b :: b in find ==> b.embed == []
    ensures var m := Marked(vec, find, i);
            Keys(m) == Keys(find) && WordsOk(m) && AllLeaves(m) == AllLeaves(vec[i..i + |find|]) &&
            (AllGenuine(red, vec) ==> AllGenuine(red, m))
  {
    hide Mark, Genuine, Leaves, AllLeaves, WellFormed, ToKey;
    var m, part := Marked(vec, find, i), vec[i..i + |find|];
    forall f | 0 <= f < |m|
      ensures ToKey(m[f]) == ToKey(find[f]) && ElementOk(m[f]) && Leaves(m[f]) == Leaves(part[f])
      ensures Genuine(red, part[f]) ==> Genuine(red, m[f])
      ensures part[f] in vec
    {
      MarkedElement(red, vec[i + f], find[f]);
    }
    SameLeaves(m, part);
    assert Keys(m) == Keys(find);
  }

  lemma MarkedElement(red: ReduceMap, e: Entity, f: Entity)
    requires ElementOk(e) && ElementOk(f) && f.embed == [] && ToKey(e) == ToKey(f)
    ensures var m := Mark(e, Marker(f));
            ToKey(m) == ToKey(f) && ElementOk(m) && Leaves(m) == Leaves(e) &&
            (Genuine(red, e) ==> Genuine(red, m))
  {
    MarkKeepsKey(e, f);
    MarkedGenuine(red, e, Mark(e, Marker(f)));
  }

  lemma MarkedGenuine(red: ReduceMap, e: Entity, m: Entity)
    requires ToKey(e) == ToKey(m) && e.embed == m.embed && e.text == m.text
    ensures Genuine(red, e) == Genuine(red, m) && Leaves(e) == Leaves(m)
  {
  }

  /** The new node carries the target's key. */
  lemma TargetKey(target: Entity, embed: seq<Entity>)
    requires WellFormed(target) && target.embed == []
    ensures var e := NewEntity(ToStr(target), embed);
            ToKey(e) == ToKey(target) && WellFormed(e) && e == target.(embed := embed, text := "")
  {
    ToStrRoundTrip(target);
    AddWellFormed(BLANK.(embed := embed), ToStr(target));
    AddIgnoresEmbed(BLANK, Split(ToStr(target), {'/'}), embed);
    assert BLANK.(embed := []) == BLANK;
  }

  lemma {:induction false} AddIgnoresEmbed(e: Entity, parts: seq<string>, embed: seq<Entity>)
    ensures AddParts(e.(embed := embed), parts) == AddParts(e, parts).(embed := embed)
    decreases |parts|
  {
    if parts != [] {
      AddIgnoresEmbed(AddPart(e, parts[0]), parts[1..], embed);
    }
  }

  lemma SplicedLeaves(a: seq<Entity>, mid: seq<Entity>, node: Entity, c: seq<Entity>)
    requires Leaves(node) == AllLeaves(mid)
    ensures AllLeaves(a + [node] + c) == AllLeaves(a + mid + c)
  {
    assert a + [node] + c == a + ([node] + c) && a + mid + c == a + (mid + c);
    AllLeavesConcat(a, [node] + c);
    AllLeavesConcat([node], c);
    AllLeavesConcat(a, mid + c);
    AllLeavesConcat(mid, c);
    assert [node][1..] == [] && AllLeaves([]) == [];
    assert AllLeaves([node]) == Leaves(node) + [];
  }

  lemma GenuineNode(red: ReduceMap, rule: ReduceRule, e: Entity)
    requires InRed(red, rule) && ToKey(e) == ToKey(rule.target) && Keys(e.embed) == Keys(rule.body)
    requires AllGenuine(red, e.embed) && e.text == ""
    ensures Genuine(red, e)
  {
  }

  lemma NodeLeaves(e: Entity)
    requires e.embed != []
    ensures Leaves(e) == AllLeaves(e.embed)
  {
  }

  lemma NodeFor(red: ReduceMap, rule: ReduceRule, words: seq<Entity>, i: int)
    returns (m: seq<Entity>, node: Entity)
    requires InRed(red, rule) && RuleOk(rule) && WordsOk(words) && FullAt(words, rule.body, i)
    ensures m == Marked(words, rule.body, i) && node == NewEntity(ToStr(rule.target), m)
    ensures node.virt == rule.target.virt
    ensures ElementOk(node) && Leaves(node) == AllLeaves(words[i..i + |rule.body|])
    ensures AllGenuine(red, words) ==> Genuine(red, node)
  {
    hide Mark, NewEntity, Genuine, Leaves, AllLeaves, Marked, AllGenuine, ToStr, ToKey, WellFormed;
    m := Marked(words, rule.body, i);
    MarkedKeep(red, words, rule.body, i);
    TargetKey(rule.target, m);
    node := NewEntity(ToStr(rule.target), m);
    NodeLeaves(node);
    if AllGenuine(red, words) { GenuineNode(red, rule, node); }
  }

  lemma RewriteShape(red: ReduceMap, rule: ReduceRule, words: seq<Entity>)
    returns (a: seq<Entity>, mid: seq<Entity>, node: Entity, c: seq<Entity>)
    requires InRed(red, rule) && RuleOk(rule) && WordsOk(words) && Matches(rule, words)
    ensures words == a + mid + c && Replaced(words, rule.body, rule.target) == a + [node] + c
    ensures |mid| == |rule.body| && Keys(mid) == Keys(rule.body)
    ensures ToKey(node) == ToKey(rule.target) && node.virt == rule.target.virt
    ensures ElementOk(node) && Leaves(node) == AllLeaves(mid)
    ensures AllGenuine(red, words) ==> Genuine(red, node)
  {
    hide AllLeaves, Leaves, Genuine, AllGenuine, NewEntity, Marked, Matches, Replaced, WordsOk, WellFormed, ToKey,
         ToStr;
    MatchIsLeftmostOccurrence(rule, words);
    var i, n := FirstCompatible(words, rule.body, 0), |rule.body|;
    var m;
    m, node := NodeFor(red, rule, words, i);
    a, mid, c := words[..i], words[i..i + n], words[i + n..];
    ThreeParts(words, i, n);
    FullKeys(words, rule.body, i);
    TargetKey(rule.target, m);
  }

  lemma FullKeys(vec: seq<Entity>, find: seq<Entity>, i: int)
    requires FullAt(vec, find, i)
    ensures Keys(vec[i..i + |find|]) == Keys(find)
  {
  }

  lemma ThreeParts<X>(s: seq<X>, i: nat, n: nat)
    requires i + n <= |s|
    ensures s == s[..i] + s[i..i + n] + s[i + n..]
  {
  }

  lemma SplicedOk(red: ReduceMap, a: seq<Entity>, mid: seq<Entity>, node: Entity, c: seq<Entity>)
    requires WordsOk(a + mid + c) && ElementOk(node)
    ensures WordsOk(a + [node] + c)
    ensures AllGenuine(red, a + mid + c) && Genuine(red, node) ==> AllGenuine(red, a + [node] + c)
  {
    forall e | e in a + [node] + c ensures e == node || e in a + mid + c {
    }
  }

  /** One rewrite loses no leaf, keeps every derivation, and adds a node that is an
      instance of the rule. */
  lemma RewriteKeeps(red: ReduceMap, rule: ReduceRule, words: seq<Entity>)
    requires InRed(red, rule) && RuleOk(rule) && WordsOk(words) && Matches(rule, words)
    ensures var next := Replaced(words, rule.body, rule.target);
            WordsOk(next) && AllLeaves(next) == AllLeaves(words) &&
            (AllGenuine(red, words) ==> AllGenuine(red, next)) &&
            |next| == |words| - |rule.body| + 1
  {
    var a, mid, node, c := RewriteShape(red, rule, words);
    SplicedLeaves(a, mid, node, c);
    SplicedOk(red, a, mid, node, c);
  }

  // ---- one round -------------------------------------------------------------------

  /** What `reduce_step` compares targets by: the printed target, from "$" on. */
  function ComplexityKey(target: Entity): (k: string)
    ensures k != ""
  {
    var printed := "{" + Print(target) + "}";
    if Occurs("$", printed) then "{" + FromChar(printed, '$') else printed
  }

  function FromChar(s: string, c: char): string {
    if s == "" || s[0] == c then s else FromChar(s[1..], c)
  }

  ghost predicate HasMatch(rules: seq<ReduceRule>, words: seq<Entity>) {
    exists rule :: rule in rules && Matches(rule, words)
  }

  /** The matching rules of one order for target `t`. */
  ghost predicate Eligible(rules: seq<ReduceRule>, t: string, words: seq<Entity>, rule: ReduceRule) {
    rule in rules && Matches(rule, words) && ComplexityKey(rule.target) == t
  }

  /** ... and those among them whose body is longest. */
  ghost predicate Best(rules: seq<ReduceRule>, t: string, words: seq<Entity>, rule: ReduceRule) {
    Eligible(rules, t, words, rule) &&
    forall other :: Eligible(rules, t, words, other) ==> |other.body| <= |rule.body|
  }

  ghost predicate Candidate(rules: seq<ReduceRule>, t: string, words: seq<Entity>, next: seq<Entity>) {
    (exists rule :: Best(rules, t, words, rule) && next == Replaced(words, rule.body, rule.target)) ||
    (Occurs("*", t) && next == words)
  }

  /** `m` holds the candidates, one for each printed form. */
  ghost predicate Describes(rules: seq<ReduceRule>, t: string, words: seq<Entity>, m: WordLists) {
    (forall p :: p in m ==> Candidate(rules, t, words, m[p]) && AllToStr(m[p]) == p) &&
    (forall next :: Candidate(rules, t, words, next) ==> AllToStr(next) in m)
  }

  /** The lowest order with a matching rule. */
  ghost predicate LowestOrder(red: ReduceMap, words: seq<Entity>, o: int) {
    0 <= o < |red| && HasMatch(red[o], words) && forall k :: 0 <= k < o ==> !HasMatch(red[k], words)
  }

  /** The chosen target is that of a matching rule with the longest key string. */
  ghost predicate ChosenTarget(rules: seq<ReduceRule>, words: seq<Entity>, t: string) {
    exists rule :: Eligible(rules, t, words, rule) &&
      forall other :: other in rules && Matches(other, words) ==> |other.keys| <= |rule.keys|
  }

  /** What `reduce_step` returns. */
  ghost predicate StepResult(red: ReduceMap, words: seq<Entity>, m: WordLists) {
    if exists o :: LowestOrder(red, words, o)
    then exists o, t :: LowestOrder(red, words, o) && ChosenTarget(red[o], words, t) && Describes(red[o], t, words, m)
    else m == map[]
  }

  lemma {:induction false} LowestExists(red: ReduceMap, words: seq<Entity>, o: nat) returns (low: nat)
    requires o < |red| && HasMatch(red[o], words)
    ensures LowestOrder(red, words, low)
  {
    if k: nat :| k < o && HasMatch(red[k], words) {
      low := LowestExists(red, words, k);
    } else {
      low := o;
    }
  }

  lemma {:induction false} BestExists(rules: seq<ReduceRule>, t: string, words: seq<Entity>, rule: ReduceRule)
    requires Eligible(rules, t, words, rule)
    ensures exists best :: Best(rules, t, words, best)
    decreases LongestBody(rules) - |rule.body|
  {
    if other :| Eligible(rules, t, words, other) && |other.body| > |rule.body| {
      LongestBodyBounds(rules, other);
      BestExists(rules, t, words, other);
    } else {
      assert Best(rules, t, words, rule);
    }
  }

  ghost function LongestBody(rules: seq<ReduceRule>): nat {
    if rules == [] then 0
    else
      var rest := LongestBody(rules[1..]);
      if rest < |rules[0].body| then |rules[0].body| else rest
  }

  lemma {:induction false} LongestBodyBounds(rules: seq<ReduceRule>, rule: ReduceRule)
    requires rule in rules
    ensures |rule.body| <= LongestBody(rules)
  {
    if rule != rules[0] {
      assert rule in rules[1..];
      LongestBodyBounds(rules[1..], rule);
    }
  }

  lemma MatchGivesResult(red: ReduceMap, words: seq<Entity>, m: WordLists, rule: ReduceRule)
    requires StepResult(red, words, m) && InRed(red, rule) && Matches(rule, words)
    ensures m != map[]
  {
    var k :| 0 <= k < |red| && rule in red[k];
    var low := LowestExists(red, words, k);
    var o, t :| LowestOrder(red, words, o) && ChosenTarget(red[o], words, t) && Describes(red[o], t, words, m);
    var chosen :| Eligible(red[o], t, words, chosen);
    BestExists(red[o], t, words, chosen);
    var best :| Best(red[o], t, words, best);
    assert Candidate(red[o], t, words, Replaced(words, best.body, best.target));
  }

  lemma LowestHasRule(red: ReduceMap, words: seq<Entity>, o: int)
    requires LowestOrder(red, words, o)
    ensures exists rule :: InRed(red, rule) && Matches(rule, words)
  {
    var rule :| rule in red[o] && Matches(rule, words);
    assert InRed(red, rule);
  }

  /** A round returns nothing exactly when no rule of any order matches. */
  lemma EmptyIffNoMatch(red: ReduceMap, words: seq<Entity>, m: WordLists)
    requires StepResult(red, words, m)
    ensures m == map[] <==> !exists rule :: InRed(red, rule) && Matches(rule, words)
  {
    if rule :| InRed(red, rule) && Matches(rule, words) {
      MatchGivesResult(red, words, m, rule);
    }
    forall o | LowestOrder(red, words, o) ensures exists rule :: InRed(red, rule) && Matches(rule, words) {
      LowestHasRule(red, words, o);
    }
  }

  // ---- whole runs ------------------------------------------------------------------

  ghost predicate RoundLeadsTo(red: ReduceMap, words: seq<Entity>, next: seq<Entity>) {
    exists m, p :: StepResult(red, words, m) && p in m && next == m[p]
  }

  /** `next` is reached from `words` in `k` rounds. */
  ghost predicate Reaches(red: ReduceMap, words: seq<Entity>, k: nat, next: seq<Entity>) {
    if k == 0 then next == words
    else exists mid :: Reaches(red, words, k - 1, mid) && RoundLeadsTo(red, mid, next)
  }

  lemma RoundRewrites(red: ReduceMap, words: seq<Entity>, next: seq<Entity>) returns (rule: ReduceRule)
    requires RoundLeadsTo(red, words, next)
    ensures InRed(red, rule) && Matches(rule, words)
    ensures next == Replaced(words, rule.body, rule.target) ||
            (next == words && Occurs("*", ComplexityKey(rule.target)))
  {
    var m, p :| StepResult(red, words, m) && p in m && next == m[p];
    assert m != map[];
    var o, t :| LowestOrder(red, words, o) && ChosenTarget(red[o], words, t) && Describes(red[o], t, words, m);
    assert Candidate(red[o], t, words, next);
    if r :| Best(red[o], t, words, r) && next == Replaced(words, r.body, r.target) {
      rule := r;
    } else {
      rule :| Eligible(red[o], t, words, rule);
    }
    assert rule in red[o];
  }

  /** Every list reached in any run has the leaves of the input, and only genuine
      derivations. */
  lemma {:induction false} RunsKeep(red: ReduceMap, words: seq<Entity>, k: nat, next: seq<Entity>)
    requires RedOk(red) && WordsOk(words) && Reaches(red, words, k, next)
    ensures WordsOk(next) && AllLeaves(next) == AllLeaves(words)
    ensures AllGenuine(red, words) ==> AllGenuine(red, next)
  {
    hide RoundLeadsTo, WordsOk, AllLeaves, AllGenuine, RuleOk;
    if k > 0 {
      var mid :| Reaches(red, words, k - 1, mid) && RoundLeadsTo(red, mid, next);
      RunsKeep(red, words, k - 1, mid);
      var rule := RoundRewrites(red, mid, next);
      RewriteKeeps(red, rule, mid);
    }
  }

  /** Only input words carry markers of their own at the top of a list: a node gets its
      markers when it becomes a child. */
  ghost predicate Unmarked(words: seq<Entity>) {
    forall w :: w in words ==> w.embed == [] || w.virt == []
  }

  /** No target of the reduce map has markers. */
  ghost predicate PlainTargets(red: ReduceMap) {
    forall rule :: InRed(red, rule) ==> rule.target.virt == []
  }

  lemma RewriteStaysUnmarked(red: ReduceMap, rule: ReduceRule, words: seq<Entity>)
    requires InRed(red, rule) && RuleOk(rule) && WordsOk(words) && Matches(rule, words)
    requires PlainTargets(red) && Unmarked(words)
    ensures Unmarked(Replaced(words, rule.body, rule.target))
  {
    hide WordsOk, RuleOk, Matches, Replaced, InRed, Leaves, AllLeaves, Genuine, AllGenuine, ElementOk;
    var a, mid, node, c := RewriteShape(red, rule, words);
    forall w | w in a + [node] + c ensures w.embed == [] || w.virt == [] {
      if w != node { assert w in words; }
    }
  }

  lemma {:induction false} RunsStayUnmarked(red: ReduceMap, words: seq<Entity>, k: nat, next: seq<Entity>)
    requires RedOk(red) && WordsOk(words) && PlainTargets(red) && Unmarked(words) && Reaches(red, words, k, next)
    ensures Unmarked(next)
  {
    hide RoundLeadsTo, WordsOk, AllLeaves, AllGenuine, RuleOk, PlainTargets, Unmarked;
    if k > 0 {
      var mid :| Reaches(red, words, k - 1, mid) && RoundLeadsTo(red, mid, next);
      RunsKeep(red, words, k - 1, mid);
      RunsStayUnmarked(red, words, k - 1, mid);
      var rule := RoundRewrites(red, mid, next);
      RewriteStaysUnmarked(red, rule, mid);
    }
  }

  /** A finished parse of `words`: one tree for "s-all" over exactly these leaves. */
  ghost predicate IsParseTree(red: ReduceMap, words: seq<Entity>, e: Entity) {
    ToKey(e) == "s-all" && Genuine(red, e) && Leaves(e) == AllLeaves(words)
  }

  /** Unparsed input words are leaves. */
  ghost predicate Unparsed(words: seq<Entity>) {
    forall w :: w in words ==> w.embed == []
  }

  lemma ResultIsParseTree(red: ReduceMap, words: seq<Entity>, k: nat, next: seq<Entity>)
    requires RedOk(red) && WordsOk(words) && Unparsed(words) && Reaches(red, words, k, next)
    requires |next| == 1 && ToKey(next[0]) == "s-all"
    ensures IsParseTree(red, words, next[0])
  {
    RunsKeep(red, words, k, next);
    assert AllGenuine(red, words);
    assert next[0] in next && next[1..] == [];
    assert AllLeaves(next) == Leaves(next[0]) + [];
  }

  // ---- the possibility lists of a run --------------------------------------------------

  ghost predicate Finished(words: seq<Entity>) {
    |words| == 1 && ToKey(words[0]) == "s-all"
  }

  /** One pass of the loop of `reduce`: the new lists are results of the old ones, and
      every printed form that some old list leads to is there. */
  ghost predicate IsRound(red: ReduceMap, m: WordLists, next: WordLists) {
    (forall q :: q in next ==> exists p :: p in m && RoundLeadsTo(red, m[p], next[q])) &&
    (forall p :: p in m ==> exists t :: StepResult(red, m[p], t) && t.Keys <= next.Keys)
  }

  /** All passes, from the input list to the cap or to the first empty collection. */
  ghost predicate IsHistory(red: ReduceMap, words: seq<Entity>, rounds: seq<WordLists>) {
    rounds != [] && rounds[0] == map[AllToStr(words) := words] &&
    (forall k :: 0 <= k < |rounds| - 1 ==> IsRound(red, rounds[k], rounds[k + 1]))
  }

  ghost predicate FinishedIn(rounds: seq<WordLists>, words: seq<Entity>) {
    exists k, p :: 1 <= k < |rounds| && p in rounds[k] && rounds[k][p] == words && Finished(words)
  }

  lemma {:induction false} HistoryReaches(red: ReduceMap, words: seq<Entity>, rounds: seq<WordLists>, k: nat, p: string)
    requires IsHistory(red, words, rounds) && k < |rounds| && p in rounds[k]
    ensures Reaches(red, words, k, rounds[k][p])
  {
    hide RoundLeadsTo, StepResult, AllToStr;
    if k > 0 {
      var last, now := rounds[k - 1], rounds[k];
      assert IsRound(red, last, now) by { assert rounds[k - 1 + 1] == now; }
      var q :| q in last && RoundLeadsTo(red, last[q], now[p]);
      HistoryReaches(red, words, rounds, k - 1, q);
    }
  }

  /** Whatever `reduce` collects is a parse tree over the words it was given. */
  lemma FinishedIsParse(red: ReduceMap, words: seq<Entity>, rounds: seq<WordLists>, result: seq<Entity>)
    requires RedOk(red) && WordsOk(words) && Unparsed(words) && IsHistory(red, words, rounds)
    requires FinishedIn(rounds, result)
    ensures |result| == 1 && IsParseTree(red, words, result[0])
  {
    var k, p :| 1 <= k < |rounds| && p in rounds[k] && rounds[k][p] == result && Finished(result);
    HistoryReaches(red, words, rounds, k, p);
    ResultIsParseTree(red, words, k, result);
  }

  /** ... and its root has no markers, so that it is written as a fact. */
  lemma FinishedUnmarked(red: ReduceMap, words: seq<Entity>, rounds: seq<WordLists>, result: seq<Entity>)
    requires RedOk(red) && WordsOk(words) && Unparsed(words) && IsHistory(red, words, rounds)
    requires FinishedIn(rounds, result) && PlainTargets(red) && |words| >= 2
    ensures |result| == 1 && result[0].virt == []
  {
    hide RedOk, WordsOk, IsHistory, Reaches, PlainTargets, Genuine, ToKey, AllLeaves;
    FinishedIsParse(red, words, rounds, result);
    var k, p :| 1 <= k < |rounds| && p in rounds[k] && rounds[k][p] == result && Finished(result);
    HistoryReaches(red, words, rounds, k, p);
    RunsStayUnmarked(red, words, k, result);
    LeavesOfTwo(words);
    assert Leaves(result[0]) == AllLeaves(words);
    var root := result[0];
    assert root in result && root.embed != [];
  }

  lemma LeavesOfTwo(words: seq<Entity>)
    requires Unparsed(words) && |words| >= 2
    ensures |AllLeaves(words)| >= 2
  {
    assert words[0] in words && words[1] in words;
    var rest := words[1..];
    assert rest[0] == words[1];
    assert |Leaves(words[0])| == 1 && |Leaves(rest[0])| == 1;
    assert AllLeaves(rest) == Leaves(rest[0]) + AllLeaves(rest[1..]);
  }
}
