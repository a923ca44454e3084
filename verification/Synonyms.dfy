/** The synonym table: words bound to shared sets of words that grow in place. The invariants
    are stated on the bindings and the heap of sets, so that sharing is part of the model and
    not a convention. */
module Synonyms {
  import opened XmlCodec

  /** `print_text`. */
  function PrintText(o: Xml): string
    decreases o
  {
    match o
    case TextNode(text) => text
    case ListNode(name, content) =>
      if content == [] then ""
      else
        PrintText(content[0]) +
        JoinTexts(if name == "and" || name == "or" then " " + name + " " else " ", content[1..])
  }

  function JoinTexts(delem: string, kids: seq<Xml>): string
    decreases kids
  {
    if kids == [] then "" else delem + PrintText(kids[0]) + JoinTexts(delem, kids[1..])
  }

  lemma {:induction false} JoinedParts(delem: string, a: seq<Xml>, b: seq<Xml>)
    ensures JoinTexts(delem, a + b) == JoinTexts(delem, a) + JoinTexts(delem, b)
    decreases |a|
  {
    hide PrintText;
    if a == [] {
      assert a + b == b;
    } else {
      JoinedParts(delem, a[1..], b);
      assert (a + b)[1..] == a[1..] + b && (a + b)[0] == a[0];
      var h, u, v := delem + PrintText(a[0]), JoinTexts(delem, a[1..]), JoinTexts(delem, b);
      assert h + (u + v) == (h + u) + v;
    }
  }

  /** What stands between the texts of a list. */
  function Between(name: string): string {
    if name == "and" then " and " else if name == "or" then " or " else " "
  }

  lemma TextOfList(name: string, kids: seq<Xml>)
    requires kids != []
    ensures PrintText(ListNode(name, kids)) == PrintText(kids[0]) + JoinTexts(Between(name), kids[1..])
  {
    assert " " + "and" + " " == " and " && " " + "or" + " " == " or ";
  }

  /** The text of a part is that of its children, between blanks, or between the words "and" and
      "or" where the list is one of these. */
  lemma TextOfParts(name: string, a: seq<Xml>, b: seq<Xml>, t: string)
    ensures PrintText(ListNode(name, [TextNode(t)])) == t
    ensures a != [] && b != [] ==>
      PrintText(ListNode(name, a + b)) == PrintText(ListNode(name, a)) + Between(name) + PrintText(ListNode(name, b))
  {
    hide JoinTexts, PrintText, Between;
    OneText(name, t);
    if a != [] && b != [] {
      var delem := Between(name);
      assert (a + b)[0] == a[0] && (a + b)[1..] == a[1..] + b;
      TextOfList(name, a + b);
      TextOfList(name, a);
      TextOfList(name, b);
      JoinedParts(delem, a[1..], b);
      FirstJoined(delem, b);
      Regrouped(PrintText(a[0]), JoinTexts(delem, a[1..]), delem, PrintText(b[0]), JoinTexts(delem, b[1..]));
    }
  }

  lemma Regrouped(p: string, u: string, delem: string, q: string, v: string)
    ensures p + (u + (delem + q + v)) == (p + u) + delem + (q + v)
  {
  }

  lemma OneText(name: string, t: string)
    ensures PrintText(ListNode(name, [TextNode(t)])) == t
  {
    TextOfList(name, [TextNode(t)]);
    assert [TextNode(t)][1..] == [] && t + "" == t;
    NothingJoined(Between(name));
  }

  lemma NothingJoined(delem: string)
    ensures JoinTexts(delem, []) == ""
  {
  }

  lemma FirstJoined(delem: string, kids: seq<Xml>)
    requires kids != []
    ensures JoinTexts(delem, kids) == delem + PrintText(kids[0]) + JoinTexts(delem, kids[1..])
  {
  }

  // ---- words connected by inserted pairs -----------------------------------------------

  type Pairs = set<(string, string)>

  ghost predicate Linked(pairs: Pairs, a: string, b: string) {
    a == b || (a, b) in pairs || (b, a) in pairs
  }

  ghost predicate Path(pairs: Pairs, p: seq<string>) {
    |p| > 0 && forall i {:trigger p[i]} :: 0 < i < |p| ==> Linked(pairs, p[i - 1], p[i])
  }

  ghost predicate Connected(pairs: Pairs, a: string, b: string) {
    exists p :: Path(pairs, p) && p[0] == a && p[|p| - 1] == b
  }

  lemma LinkConnects(pairs: Pairs, a: string, b: string)
    requires Linked(pairs, a, b)
    ensures Connected(pairs, a, b)
  {
    assert Path(pairs, [a, b]);
    assert [a, b][0] == a && [a, b][|[a, b]| - 1] == b;
  }

  lemma Chain(pairs: Pairs, a: string, b: string, c: string)
    requires Connected(pairs, a, b) && Connected(pairs, b, c)
    ensures Connected(pairs, a, c)
  {
    var p :| Path(pairs, p) && p[0] == a && p[|p| - 1] == b;
    var q :| Path(pairs, q) && q[0] == b && q[|q| - 1] == c;
    assert Path(pairs, p + q);
    assert (p + q)[0] == a && (p + q)[|p + q| - 1] == c;
  }

  function Reversed(p: seq<string>): (r: seq<string>)
    ensures |r| == |p| && forall i :: 0 <= i < |p| ==> r[i] == p[|p| - 1 - i]
  {
    seq(|p|, i requires 0 <= i < |p| => p[|p| - 1 - i])
  }

  lemma Turn(pairs: Pairs, a: string, b: string)
    requires Connected(pairs, a, b)
    ensures Connected(pairs, b, a)
  {
    var p :| Path(pairs, p) && p[0] == a && p[|p| - 1] == b;
    var r := Reversed(p);
    forall i | 0 < i < |r| ensures Linked(pairs, r[i - 1], r[i]) {
      assert r[i - 1] == p[|p| - i] && r[i] == p[|p| - i - 1];
    }
    assert Path(pairs, r) && r[0] == b && r[|r| - 1] == a;
  }

  lemma MorePairs(pairs: Pairs, more: Pairs, a: string, b: string)
    requires pairs <= more && Connected(pairs, a, b)
    ensures Connected(more, a, b)
  {
  }

  // ---- the table as values ---------------------------------------------------------------

  type Sets = map<string, set<string>>

  function WordsOf(sets: Sets, key: string): set<string> {
    if key in sets then sets[key] else {}
  }

  /** What every run keeps: each key is in its own set, each inserted object in its
      subject's set, and all members are connected to the key by inserted pairs. */
  ghost predicate Sound(sets: Sets, pairs: Pairs) {
    && (forall k :: k in sets ==> k in sets[k])
    && (forall p :: p in pairs ==> p.0 in sets && p.1 in sets && p.1 in sets[p.0])
    && (forall k, m :: k in sets && m in sets[k] ==> Connected(pairs, k, m))
  }

  /** The converse of the last part of `Sound`. */
  ghost predicate Complete(sets: Sets, pairs: Pairs) {
    forall k, m :: k in sets && Connected(pairs, k, m) ==> m in sets[k]
  }

  /** One insertion: the words of `grown`, bound to one set object, get everything. */
  ghost predicate Inserted(sets: Sets, after: Sets, grown: set<string>, text1: string, text2: string) {
    && after.Keys == sets.Keys + {text1, text2}
    && text1 in grown && (text2 in grown || text2 in sets)
    && (forall k :: k in grown && k in sets ==> sets[k] == WordsOf(sets, if text1 in sets then text1 else text2))
    && (forall k :: k in grown && k !in sets ==> k == text1 || k == text2)
    && (forall k :: k in after ==>
          if k in grown then after[k] == WordsOf(sets, text1) + WordsOf(sets, text2) + {text1, text2}
          else k in sets && after[k] == sets[k])
  }

  lemma InsertedConnects(sets: Sets, pairs: Pairs, more: Pairs, text1: string, text2: string, k: string, m: string)
    requires Sound(sets, pairs) && more == pairs + {(text1, text2)}
    requires k == text1 || k == text2 || (k in sets && sets[k] == WordsOf(sets, if text1 in sets then text1 else text2))
    requires m in WordsOf(sets, text1) + WordsOf(sets, text2) + {text1, text2}
    ensures Connected(more, k, m)
  {
    LinkConnects(more, text1, text1);
    LinkConnects(more, text1, text2);
    LinkConnects(more, text2, text1);
    LinkConnects(more, text2, text2);
    if m in WordsOf(sets, text1) {
      MorePairs(pairs, more, text1, m);
    } else if m in WordsOf(sets, text2) {
      MorePairs(pairs, more, text2, m);
      Chain(more, text1, text2, m);
    }
    assert Connected(more, text1, m);
    if k == text2 {
      Chain(more, text2, text1, m);
    } else if k != text1 {
      var t := if text1 in sets then text1 else text2;
      assert k in sets[k];
      MorePairs(pairs, more, t, k);
      Turn(more, t, k);
      if t == text2 { Chain(more, k, text2, text1); }
      Chain(more, k, text1, m);
    }
  }

  lemma InsertedKeepsSound(sets: Sets, pairs: Pairs, after: Sets, grown: set<string>, text1: string, text2: string)
    requires Sound(sets, pairs) && Inserted(sets, after, grown, text1, text2)
    ensures Sound(after, pairs + {(text1, text2)})
  {
    hide Connected;
    var more := pairs + {(text1, text2)};
    forall k, m | k in after && m in after[k] ensures Connected(more, k, m) {
      if k in grown {
        InsertedConnects(sets, pairs, more, text1, text2, k, m);
      } else {
        MorePairs(pairs, more, k, m);
      }
    }
    forall p | p in more ensures p.0 in after && p.1 in after && p.1 in after[p.0] {
      if p in pairs {
        assert p.1 in sets[p.0];
      }
    }
  }

  /** All connected words are found exactly when subject and object of every inserted pair
      have the same set. */
  lemma CompleteIffPairsAgree(sets: Sets, pairs: Pairs)
    requires Sound(sets, pairs)
    ensures Complete(sets, pairs) <==> forall p :: p in pairs ==> sets[p.0] == sets[p.1]
  {
    if Complete(sets, pairs) {
      forall p | p in pairs ensures sets[p.0] == sets[p.1] {
        LinkConnects(pairs, p.0, p.1);
        LinkConnects(pairs, p.1, p.0);
        forall m ensures m in sets[p.0] <==> m in sets[p.1] {
          if m in sets[p.0] { Chain(pairs, p.1, p.0, m); }
          if m in sets[p.1] { Chain(pairs, p.0, p.1, m); }
        }
      }
    }
    if forall p :: p in pairs ==> sets[p.0] == sets[p.1] {
      forall k, m | k in sets && Connected(pairs, k, m) ensures m in sets[k] {
        var p :| Path(pairs, p) && p[0] == k && p[|p| - 1] == m;
        SameAlong(sets, pairs, p, |p| - 1);
      }
    }
  }

  lemma {:induction false} SameAlong(sets: Sets, pairs: Pairs, p: seq<string>, i: nat)
    requires Sound(sets, pairs) && (forall p :: p in pairs ==> sets[p.0] == sets[p.1])
    requires Path(pairs, p) && p[0] in sets && i < |p|
    ensures p[i] in sets && sets[p[i]] == sets[p[0]]
    decreases i
  {
    if i > 0 {
      SameAlong(sets, pairs, p, i - 1);
      assert Linked(pairs, p[i - 1], p[i]);
    }
  }

  /** Three insertions after which the two directions part: (a, b), (c, d), (a, c). */
  lemma JoinedSetsStayApart(a: string, b: string, c: string, d: string)
    requires a != b && a != c && a != d && b != c && b != d && c != d
    ensures var sets := map[a := {a, b, c, d}, b := {a, b, c, d}, c := {c, d}, d := {c, d}];
            var pairs := {(a, b), (c, d), (a, c)};
            Sound(sets, pairs) && Connected(pairs, c, a) && a !in sets[c]
  {
    hide Connected;
    var s0: Sets := map[];
    var s1 := map[a := {a, b}, b := {a, b}];
    var s2 := map[a := {a, b}, b := {a, b}, c := {c, d}, d := {c, d}];
    var s3 := map[a := {a, b, c, d}, b := {a, b, c, d}, c := {c, d}, d := {c, d}];
    assert {} + {(a, b)} == {(a, b)} && {(a, b)} + {(c, d)} == {(a, b), (c, d)};
    InsertedKeepsSound(s0, {}, s1, {a, b}, a, b);
    assert Inserted(s1, s2, {c, d}, c, d) by { assert {} + {} + {c, d} == {c, d}; }
    InsertedKeepsSound(s1, {(a, b)}, s2, {c, d}, c, d);
    assert {a, b} + {c, d} + {a, c} == {a, b, c, d};
    assert Inserted(s2, s3, {a, b}, a, c);
    InsertedKeepsSound(s2, {(a, b), (c, d)}, s3, {a, b}, a, c);
    assert {(a, b), (c, d)} + {(a, c)} == {(a, b), (c, d), (a, c)};
    LinkConnects({(a, b), (c, d), (a, c)}, c, a);
  }

  // ---- the table -------------------------------------------------------------------------

  /** A set held by shared pointers. */
  class SynSet {
    var words: set<string>

    constructor ()
      ensures words == {}
    {
      words := {};
    }
  }

  type Bindings = map<string, SynSet>

  /** One insertion on the bindings of words to set objects and on the words' sets. */
  ghost predicate Rebound(sets: Sets, after: Sets, bound: Bindings, table: Bindings, text1: string, text2: string) {
    && sets.Keys == bound.Keys && after.Keys == table.Keys == bound.Keys + {text1, text2}
    && (forall k :: k in bound ==> table[k] == bound[k])
    && (text2 !in bound ==> table[text2] == table[text1])
    && (text1 !in bound && text2 in bound ==> table[text1] == table[text2])
    && (text1 !in bound && text2 !in bound ==> forall k :: k in bound ==> table[k] != table[text1])
    && (forall k :: k in table && table[k] == table[text1] ==>
          after[k] == WordsOf(sets, text1) + WordsOf(sets, text2) + {text1, text2})
    && (forall k :: k in table && table[k] != table[text1] ==> k in bound && after[k] == sets[k])
  }

  /** Equal bindings, equal sets. */
  ghost predicate Bound(sets: Sets, bound: Bindings) {
    sets.Keys == bound.Keys && forall j, k :: j in bound && k in bound && bound[j] == bound[k] ==> sets[j] == sets[k]
  }

  /** Words of one set are bound to that very set. */
  ghost predicate SharedSets(sets: Sets, bound: Bindings) {
    sets.Keys == bound.Keys && forall k, m :: k in sets && m in sets[k] ==> m in bound && bound[m] == bound[k]
  }

  lemma ReboundInserts(sets: Sets, after: Sets, bound: Bindings, table: Bindings, text1: string, text2: string)
    requires Bound(sets, bound) && Rebound(sets, after, bound, table, text1, text2)
    ensures Inserted(sets, after, (set k | k in table && table[k] == table[text1]), text1, text2)
  {
  }

  lemma SharedIsComplete(sets: Sets, bound: Bindings, pairs: Pairs)
    requires Sound(sets, pairs) && Bound(sets, bound) && SharedSets(sets, bound)
    ensures Complete(sets, pairs)
  {
    forall p | p in pairs ensures sets[p.0] == sets[p.1] {
      assert p.1 in sets[p.0];
    }
    CompleteIffPairsAgree(sets, pairs);
  }

  /** An inserted object must find its subject in a complete table. */
  lemma Asked(sets: Sets, pairs: Pairs, object_: string, subject: string)
    requires (subject, object_) in pairs && object_ in sets
    ensures Complete(sets, pairs) ==> subject in sets[object_]
  {
    LinkConnects(pairs, object_, subject);
  }

  /** The branch that does not rebind is what ends sharing, and with it completeness. */
  lemma RebindingDecides(sets: Sets, after: Sets, bound: Bindings, table: Bindings, text1: string, text2: string,
                         pairs: Pairs)
    requires Bound(sets, bound) && Rebound(sets, after, bound, table, text1, text2) && SharedSets(sets, bound)
    requires Bound(after, table) && Sound(after, pairs) && (text1, text2) in pairs
    ensures SharedSets(after, table) <==> !(text1 in bound && text2 in bound && bound[text1] != bound[text2])
    ensures SharedSets(after, table) <==> Complete(after, pairs)
  {
    hide Connected, Complete, Sound;
    if text1 in bound && text2 in bound && bound[text1] != bound[text2] {
      assert table[text1] != table[text2] by { hide SharedSets, Bound; }
      assert text1 in after[text1] && text2 in after[text1] by { hide SharedSets, Bound; }
      assert !SharedSets(after, table);
      Asked(after, pairs, text2, text1);
      assert text1 !in sets[text2];
      assert after[text2] == sets[text2] by { hide SharedSets, Bound; }
    } else {
      StaysShared(sets, after, bound, table, text1, text2);
      SharedIsComplete(after, table, pairs);
    }
  }

  lemma StaysShared(sets: Sets, after: Sets, bound: Bindings, table: Bindings, text1: string, text2: string)
    requires Rebound(sets, after, bound, table, text1, text2) && SharedSets(sets, bound)
    requires text1 in bound && text2 in bound ==> bound[text1] == bound[text2]
    ensures SharedSets(after, table)
  {
    forall k, m | k in after && m in after[k] ensures m in table && table[m] == table[k] {
      if table[k] != table[text1] {
        assert m in sets[k];
      } else if m in WordsOf(sets, text1) {
        assert bound[m] == bound[text1];
      } else if m in WordsOf(sets, text2) {
        assert bound[m] == bound[text2];
      }
    }
  }

  lemma Conclude(sets: Sets, after: Sets, bound: Bindings, table: Bindings, text1: string, text2: string,
                 pairs: Pairs, more: Pairs)
    requires Bound(sets, bound) && Rebound(sets, after, bound, table, text1, text2)
    requires Sound(sets, pairs) && more == pairs + {(text1, text2)} && Bound(after, table)
    ensures Sound(after, more)
    ensures SharedSets(sets, bound) ==>
              (SharedSets(after, table) <==> !(text1 in bound && text2 in bound && bound[text1] != bound[text2]))
    ensures SharedSets(sets, bound) ==> (SharedSets(after, table) <==> Complete(after, more))
  {
    hide Sound, Complete, SharedSets, Inserted;
    ReboundInserts(sets, after, bound, table, text1, text2);
    InsertedKeepsSound(sets, pairs, after, (set k | k in table && table[k] == table[text1]), text1, text2);
    if SharedSets(sets, bound) {
      RebindingDecides(sets, after, bound, table, text1, text2, more);
    }
  }

  lemma Rebinds(sets: Sets, after: Sets, bound: Bindings, table: Bindings, text1: string, text2: string)
    requires sets.Keys == bound.Keys && after.Keys == table.Keys == bound.Keys + {text1, text2}
    requires forall k :: k in bound ==> table[k] == bound[k]
    requires text2 !in bound ==> table[text2] == table[text1]
    requires text1 !in bound && text2 in bound ==> table[text2] == table[text1]
    requires text1 !in bound && text2 !in bound ==> forall k :: k in bound ==> table[k] != table[text1]
    requires Bound(after, table)
    requires after[text1] ==
      (if text1 in bound then sets[text1] else {}) + (if text2 in bound then sets[text2] else {}) + {text1} + {text2}
    requires forall k :: k in bound && bound[k] != table[text1] ==> after[k] == sets[k]
    ensures Rebound(sets, after, bound, table, text1, text2)
  {
    assert after[text1] == WordsOf(sets, text1) + WordsOf(sets, text2) + {text1, text2};
  }

  class SynonymTable {
    var table: map<string, SynSet>
    ghost var pairs: Pairs

    constructor ()
      ensures Valid() && table == map[] && pairs == {} && Shared()
    {
      table, pairs := map[], {};
    }

    function View(): (r: Sets)
      reads this, table.Values
      ensures r.Keys == table.Keys
    {
      map k | k in table :: table[k].words
    }

    ghost predicate Valid()
      reads this, table.Values
    {
      Sound(View(), pairs)
    }

    ghost predicate Shared()
      reads this, table.Values
    {
      SharedSets(View(), table)
    }

    /** The set that subject and object go to: that of the subject, grown by the object's;
        an object known before with another set keeps that one. */
    method Choose(text1: string, text2: string) returns (syns: SynSet)
      modifies `table, table.Values
      ensures table.Keys == old(table.Keys) + {text1, text2}
      ensures forall k :: k in old(table) ==> table[k] == old(table[k])
      ensures table[text1] == syns
      ensures text2 !in old(table) ==> table[text2] == syns
      ensures text1 !in old(table) && text2 in old(table) ==> table[text2] == syns
      ensures text1 !in old(table) && text2 !in old(table) ==> fresh(syns)
      ensures table.Values <= old(table.Values) + {syns} && (syns in old(table.Values) || fresh(syns))
      ensures syns.words ==
        (if text1 in old(table) then old(table[text1].words) else {}) +
        (if text2 in old(table) then old(table[text2].words) else {})
      ensures forall k :: k in old(table) && table[k] != syns ==> table[k].words == old(table[k].words)
    {
      if text1 in table {
        var syns1 := table[text1];
        if text2 in table {
          var syns2 := table[text2];
          if syns1 != syns2 {
            syns1.words := syns1.words + syns2.words;
            syns := syns1;
          } else {
            syns := syns1;
          }
        } else {
          syns := syns1;
          table := table[text2 := syns];
        }
      } else {
        if text2 in table {
          syns := table[text2];
          table := table[text1 := syns];
        } else {
          syns := new SynSet();
          table := table[text1 := syns];
          table := table[text2 := syns];
        }
      }
      assert table.Keys == old(table.Keys) + {text1, text2};
    }

    /** `insert_synonym` for the printed subject and object. */
    method Insert(text1: string, text2: string)
      requires Valid()
      modifies this, table.Values
      ensures Valid() && pairs == old(pairs) + {(text1, text2)}
      ensures Rebound(old(View()), View(), old(table), table, text1, text2)
      ensures fresh(table.Values - old(table.Values))
      ensures old(Shared()) ==>
                (Shared() <==> !(text1 in old(table) && text2 in old(table) && old(table[text1] != table[text2])))
      ensures old(Shared()) ==> (Shared() <==> Complete(View(), pairs))
    {
      hide Connected, Sound, Inserted, SharedSets, Complete, Rebound, WordsOf;
      ghost var was, bound := View(), table;
      var syns := Choose(text1, text2);
      syns.words := syns.words + {text1};
      syns.words := syns.words + {text2};
      pairs := pairs + {(text1, text2)};
      ghost var now := View();
      Rebinds(was, now, bound, table, text1, text2);
      Conclude(was, now, bound, table, text1, text2, old(pairs), pairs);
    }
  }
}
