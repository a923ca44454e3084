/** What the fact of a parse says: which words of the sentence stand in which of its parts, and
    that none of them gets lost. */
module FactTexts {
  import opened Text
  import opened Entities
  import opened XmlCodec
  import opened Reduction
  import opened EntityXml
  import opened ParseTrees

  // ---- the words of a tree and the texts of a fact ------------------------------------------

  const PART_TAGS: set<string> :=
    {"subject", "object", "verb", "adverbs", "questionword", "extra", "clause", "linked"}

  /** The markers behind the parts of a fact. */
  predicate Marks(marker: string, tag: string) {
    || (tag == "subject" && marker == "v-subject")
    || (tag == "object" && marker == "v-object")
    || (tag == "verb" && marker == "v-verb")
    || (tag == "adverbs" && marker == "v-adverb")
    || (tag == "questionword" && marker == "v-questionword")
    || (tag == "extra" && "v-extra-" <= marker)
    || (tag == "clause" && "v-clause-" <= marker && marker != "v-clause-1")
    || (tag == "linked" && marker == "v-linked")
  }

  /** Linking words and commas are not written. */
  const SILENT: set<string> := {"d-linking", "d-komma"}

  predicate Silent(e: Entity) {
    if e.virt != [] then e.virt[0] in SILENT else ToKey(e) in SILENT
  }

  predicate SaysLink(text: string) {
    '&' in text || '|' in text || text in {"und", "and", "oder", "or"}
  }

  /** The conjunctions among linked children are not written either. */
  predicate Conjunction(e: Entity) {
    e.virt != [] && "v-link" <= e.virt[0] && SaysLink(e.text)
  }

  /** The words below the nodes whose first marker stands for the part, in order; all words if we
      are inside of it. */
  function WordsUnder(e: Entity, tag: string, inside: bool): seq<string>
    decreases e, 1
  {
    if Silent(e) then []
    else
      var within := inside || (e.virt != [] && Marks(e.virt[0], tag));
      if e.text != "" then (if within then [e.text] else []) else WordsUnderAll(e.embed, tag, within)
  }

  function WordsUnderAll(kids: seq<Entity>, tag: string, inside: bool): seq<string>
    decreases kids, 0
  {
    if kids == [] then []
    else
      (if Conjunction(kids[0]) then [] else WordsUnder(kids[0], tag, inside)) + WordsUnderAll(kids[1..], tag, inside)
  }

  /** The texts below the elements of one name, in order. */
  function TextsUnder(o: Xml, tag: string, inside: bool): seq<string>
    decreases o, 1
  {
    match o
    case TextNode(text) => if inside then [text] else []
    case ListNode(name, content) => TextsUnderAll(content, tag, inside || name == tag)
  }

  function TextsUnderAll(kids: seq<Xml>, tag: string, inside: bool): seq<string>
    decreases kids, 0
  {
    if kids == [] then [] else TextsUnder(kids[0], tag, inside) + TextsUnderAll(kids[1..], tag, inside)
  }

  /** What the reader makes of the words. */
  function ReadAll(ws: seq<string>): seq<string> {
    if ws == [] then [] else ReadText(ws[0]) + ReadAll(ws[1..])
  }

  lemma {:induction false} ReadConcat(a: seq<string>, b: seq<string>)
    ensures ReadAll(a + b) == ReadAll(a) + ReadAll(b)
    decreases |a|
  {
    hide ReadText;
    if a == [] {
      assert a + b == b;
    } else {
      ReadConcat(a[1..], b);
      assert (a + b)[1..] == a[1..] + b && (a + b)[0] == a[0];
    }
  }

  lemma {:induction false} TextsConcat(a: seq<Xml>, b: seq<Xml>, tag: string, inside: bool)
    ensures TextsUnderAll(a + b, tag, inside) == TextsUnderAll(a, tag, inside) + TextsUnderAll(b, tag, inside)
    decreases |a|
  {
    hide TextsUnder;
    if a == [] {
      assert a + b == b;
    } else {
      TextsConcat(a[1..], b, tag, inside);
      assert (a + b)[1..] == a[1..] + b && (a + b)[0] == a[0];
    }
  }

  lemma NoKidWords(tag: string, inside: bool)
    ensures WordsUnderAll([], tag, inside) == []
  {
  }

  lemma FirstKidWords(kids: seq<Entity>, tag: string, inside: bool)
    requires kids != []
    ensures WordsUnderAll(kids, tag, inside) ==
      (if Conjunction(kids[0]) then [] else WordsUnder(kids[0], tag, inside)) + WordsUnderAll(kids[1..], tag, inside)
  {
  }

  lemma {:induction false} WordsConcat(a: seq<Entity>, b: seq<Entity>, tag: string, inside: bool)
    ensures WordsUnderAll(a + b, tag, inside) == WordsUnderAll(a, tag, inside) + WordsUnderAll(b, tag, inside)
    decreases |a|
  {
    hide WordsUnder, WordsUnderAll, Conjunction;
    if a == [] {
      assert a + b == b;
      NoKidWords(tag, inside);
    } else {
      WordsConcat(a[1..], b, tag, inside);
      assert (a + b)[1..] == a[1..] + b && (a + b)[0] == a[0];
      FirstKidWords(a, tag, inside);
      FirstKidWords(a + b, tag, inside);
    }
  }

  // ---- the texts of a layout ----------------------------------------------------------------

  /** White space between elements, and texts only as all there is in a "text" element. */
  predicate Spaced(nodes: seq<Node>) {
    nodes == [] ||
    ((match nodes[0]
      case Chars(s) => AllSpaces(s)
      case Elem(name, kids) => if name == "text" then |kids| == 1 && kids[0].Chars? else Spaced(kids)) &&
     Spaced(nodes[1..]))
  }

  function NodeTexts(nodes: seq<Node>, tag: string, inside: bool): seq<string> {
    if nodes == [] then []
    else
      (match nodes[0]
       case Chars(_) => []
       case Elem(name, kids) =>
         if name != "text" then NodeTexts(kids, tag, inside || name == tag)
         else if inside && |kids| == 1 && kids[0].Chars? then ReadText(kids[0].chars)
         else []) +
      NodeTexts(nodes[1..], tag, inside)
  }

  lemma {:induction false} NodesConcat(a: seq<Node>, b: seq<Node>, tag: string, inside: bool)
    ensures NodeTexts(a + b, tag, inside) == NodeTexts(a, tag, inside) + NodeTexts(b, tag, inside)
    ensures Spaced(a) && Spaced(b) ==> Spaced(a + b)
    decreases |a|
  {
    hide NodeTexts, Spaced;
    if a == [] {
      assert a + b == b;
      NothingWritten(tag, inside);
    } else {
      NodesConcat(a[1..], b, tag, inside);
      FirstNode(a, b, tag, inside);
    }
  }

  lemma FirstNode(a: seq<Node>, b: seq<Node>, tag: string, inside: bool)
    requires a != []
    ensures Spaced(a) ==> Spaced(a[1..]) && (Spaced(a[1..] + b) ==> Spaced(a + b))
    ensures NodeTexts(a + b, tag, inside) == NodeTexts([a[0]], tag, inside) + NodeTexts(a[1..] + b, tag, inside)
    ensures NodeTexts(a, tag, inside) == NodeTexts([a[0]], tag, inside) + NodeTexts(a[1..], tag, inside)
  {
    hide ReadText, AllSpaces;
    assert (a + b)[1..] == a[1..] + b && (a + b)[0] == a[0] && [a[0]][1..] == [];
    assert NodeTexts([], tag, inside) == [];
  }

  lemma TextEntry(t: string, tag: string, inside: bool)
    requires tag != "text"
    ensures TextsUnderAll(ListEntry("text", Content("text", [Chars(t)], "")), tag, inside) ==
      if inside then ReadText(t) else []
  {
    hide RunContent, ReadText;
    assert [Chars(t)] == [Chars(t)] + [] && "" + t == t;
    ContentChars("text", t, [], "");
    ContentNone("text", t);
    ReadIsContent(t);
    OneEntry("text", RunContent("text", t), tag, inside);
    if ReadText(t) != [] {
      var v := ReadText(t)[0];
      assert [TextNode(v)][1..] == [];
      assert TextsUnderAll([TextNode(v)], tag, inside) == TextsUnder(TextNode(v), tag, inside) + [];
      assert ReadText(t) == [v];
    }
  }

  lemma OneEntry(name: string, content: seq<Xml>, tag: string, inside: bool)
    ensures TextsUnderAll(ListEntry(name, content), tag, inside) == TextsUnderAll(content, tag, inside || name == tag)
  {
    var o := ListNode(name, content);
    assert [o][1..] == [];
    assert TextsUnderAll([o], tag, inside) == TextsUnder(o, tag, inside) + [];
  }

  /** What is read from a layout has the texts of its elements. */
  lemma {:induction false} ContentTexts(outer: string, nodes: seq<Node>, run: string, tag: string, inside: bool)
    requires Spaced(nodes) && AllSpaces(run) && tag != "text"
    ensures TextsUnderAll(Content(outer, nodes, run), tag, inside) == NodeTexts(nodes, tag, inside)
    decreases nodes
  {
    hide RunContent, ReadText, AllSpaces, Content, TextsUnder, ListEntry;
    LayoutCases(outer, nodes, run);
    RunOfSpaces(outer, run);
    NothingIsSpaces();
    if nodes == [] {
    } else if nodes[0].Chars? {
      SpacesConcat(run, nodes[0].chars);
      ContentTexts(outer, nodes[1..], run + nodes[0].chars, tag, inside);
    } else {
      var name, kids, rest := nodes[0].name, nodes[0].kids, nodes[1..];
      var entry := ListEntry(name, Content(name, kids, ""));
      ContentTexts(outer, rest, "", tag, inside);
      assert [] + entry == entry;
      TextsConcat(entry, Content(outer, rest, ""), tag, inside);
      if name == "text" {
        assert kids == [Chars(kids[0].chars)];
        TextEntry(kids[0].chars, tag, inside);
      } else {
        ContentTexts(name, kids, "", tag, inside || name == tag);
        OneEntry(name, Content(name, kids, ""), tag, inside);
      }
    }
  }

  // ---- the texts of a tree as it is written ----------------------------------------------------

  /** No node without markers has a key that could be one. */
  predicate KeysOk(e: Entity) {
    (e.virt == [] ==> ToKey(e) != "" && ToKey(e)[0] != 'v') && forall k | 0 <= k < |e.embed| :: KeysOk(e.embed[k])
  }

  predicate AllKeysOk(kids: seq<Entity>) {
    forall k | 0 <= k < |kids| :: KeysOk(kids[k])
  }

  lemma KeyTag(key: string, tag: string)
    requires tag in PART_TAGS
    ensures TagOf(key) == tag <==> Marks(key, tag)
    ensures TagOf(key) != "text"
  {
    assert "v-subject"[2] == 's' && "v-object"[2] == 'o' && "v-questionword"[2] == 'q' && "v-extra-"[2] == 'e';
    assert "v-verb"[2] == 'v' && "v-clause-"[2] == 'c' && "v-adverb"[2] == 'a' && "v-linked"[2] == 'l';
    assert "s-all"[0] == 's' && "d-linking"[0] == 'd' && "v-extra-"[0] == 'v' && "v-clause-"[0] == 'v';
  }

  lemma NoMarker(key: string, tag: string)
    requires key == "" || key[0] != 'v'
    ensures !Marks(key, tag)
  {
    assert "v-extra-"[0] == 'v' && "v-clause-"[0] == 'v' && "v-subject"[0] == 'v' && "v-object"[0] == 'v';
    assert "v-verb"[0] == 'v' && "v-adverb"[0] == 'v' && "v-questionword"[0] == 'v' && "v-linked"[0] == 'v';
  }

  /** A node is written under the part that its first marker stands for. */
  lemma TagIsPart(e: Entity, tag: string)
    requires KeysOk(e) && tag in PART_TAGS
    ensures TagOf(GrammarKey(e)) == tag <==> e.virt != [] && Marks(e.virt[0], tag)
    ensures TagOf(GrammarKey(e)) != "text"
    ensures GrammarKey(e) == "d-linking" || GrammarKey(e) == "d-komma" <==> Silent(e)
  {
    hide ToKey, KeysOk, TagOf, Marks;
    KeyStarts(e);
    KeyTag(GrammarKey(e), tag);
    if e.virt == [] { NoMarker(ToKey(e), tag); }
  }

  lemma KeyStarts(e: Entity)
    requires KeysOk(e)
    ensures e.virt == [] ==> ToKey(e) != "" && ToKey(e)[0] != 'v'
  {
  }

  lemma LinkIsMarker(e: Entity)
    requires KeysOk(e)
    ensures IsLink(e) <==> e.virt != [] && "v-link" <= e.virt[0]
    ensures Conjunction(e) <==> IsLink(e) && (SaysAnd(e.text) || SaysOr(e.text))
  {
    KeyStarts(e);
    assert "v-link"[0] == 'v';
    OccursChar('&', e.text);
    OccursChar('|', e.text);
    assert ['&'] == "&" && ['|'] == "|";
  }

  lemma SpacesOf(level: nat)
    ensures AllSpaces(Open(level)) && AllSpaces(Close(level))
  {
  }

  lemma TextElement(t: string, tag: string, inside: bool)
    ensures var nodes := [Elem("text", [Chars(t)])];
            Spaced(nodes) && NodeTexts(nodes, tag, inside) == if inside then ReadText(t) else []
  {
    hide ReadText;
    var nodes := [Elem("text", [Chars(t)])];
    assert nodes[1..] == [] && Spaced([]) && NodeTexts([], tag, inside) == [];
    assert NodeTexts(nodes, tag, inside) == (if inside then ReadText(t) else []) + [];
  }

  lemma OneNode(node: Node, rest: seq<Node>, tag: string, inside: bool)
    requires Spaced(rest)
    requires node.Chars? ==> AllSpaces(node.chars)
    requires node.Elem? ==> node.name != "text" && Spaced(node.kids)
    ensures Spaced([node] + rest)
    ensures NodeTexts([node] + rest, tag, inside) ==
      (if node.Chars? then [] else NodeTexts(node.kids, tag, inside || node.name == tag)) + NodeTexts(rest, tag, inside)
  {
    hide ReadText, AllSpaces;
    assert ([node] + rest)[1..] == rest;
  }

  lemma TaggedElement(name: string, inner: seq<Node>, open: string, close: string, tag: string, inside: bool)
    requires name != "text" && Spaced(inner) && AllSpaces(open) && AllSpaces(close)
    ensures var nodes := [Elem(name, [Chars(open)] + inner), Chars(close)];
            Spaced(nodes) && NodeTexts(nodes, tag, inside) == NodeTexts(inner, tag, inside || name == tag)
  {
    hide NodeTexts, Spaced, AllSpaces;
    var kids := [Chars(open)] + inner;
    NothingWritten(tag, inside);
    OneNode(Chars(open), inner, tag, inside || name == tag);
    OneNode(Chars(close), [], tag, inside);
    assert [Chars(close)] + [] == [Chars(close)];
    OneNode(Elem(name, kids), [Chars(close)], tag, inside);
    assert [Elem(name, kids)] + [Chars(close)] == [Elem(name, kids), Chars(close)];
  }

  lemma PlainElement(name: string, inner: seq<Node>, tag: string, inside: bool)
    requires name != "text" && name != tag && Spaced(inner)
    ensures var nodes := [Elem(name, inner)];
            Spaced(nodes) && NodeTexts(nodes, tag, inside) == NodeTexts(inner, tag, inside)
  {
    hide ReadText, AllSpaces;
    assert [Elem(name, inner)][1..] == [];
  }

  /** What is written of a tree has its words, in order, each under the parts it belongs to. */
  lemma {:induction false} LayoutTexts(e: Entity, level: nat, tag: string, inside: bool)
    requires KeysOk(e) && tag in PART_TAGS
    ensures NodeTexts(Layout(e, level), tag, inside) == ReadAll(WordsUnder(e, tag, inside))
    ensures Spaced(Layout(e, level))
    decreases e, 3
  {
    hide TagOf, GrammarKey, NodeTexts, Spaced, Silent, Marks, KeysOk, KidsLayout, ReadAll, WordsUnderAll, NameOk;
    var key := GrammarKey(e);
    var name := TagOf(key);
    var l := LevelOf(name, level);
    TagIsPart(e, tag);
    NothingWritten(tag, inside);
    if key != "d-linking" && key != "d-komma" {
      var within := inside || (e.virt != [] && Marks(e.virt[0], tag));
      var inner: seq<Node>;
      if e.text != "" {
        inner := [Elem("text", [Chars(e.text)])];
        TextElement(e.text, tag, within);
        OneRead(e.text);
      } else {
        inner := KidsLayout(e.embed, Deeper(name, l));
        KidsKeysOk(e);
        KidsTexts(e.embed, Deeper(name, l), tag, within);
      }
      if name != "" {
        SpacesOf(l);
        TaggedElement(name, inner, Open(l), Close(l), tag, inside);
      }
    }
  }

  lemma KidsKeysOk(e: Entity)
    requires KeysOk(e)
    ensures AllKeysOk(e.embed)
  {
  }

  lemma NothingWritten(tag: string, inside: bool)
    ensures NodeTexts([], tag, inside) == [] && Spaced([]) && ReadAll([]) == []
  {
  }

  lemma OneRead(t: string)
    ensures ReadAll([t]) == ReadText(t)
  {
    assert [t][1..] == [];
    assert ReadText(t) + [] == ReadText(t);
  }

  lemma {:induction false} KidsTexts(kids: seq<Entity>, level: nat, tag: string, inside: bool)
    requires AllKeysOk(kids) && tag in PART_TAGS
    ensures NodeTexts(KidsLayout(kids, level), tag, inside) == ReadAll(WordsUnderAll(kids, tag, inside))
    ensures Spaced(KidsLayout(kids, level))
    decreases kids, 2
  {
    hide NodeTexts, Spaced, KeysOk, Layout, LinkedLayout, LinkTag, ReadAll, WordsUnder, NameOk, IsLink, Conjunction,
         SaysAnd, SaysOr;
    NothingWritten(tag, inside);
    if kids != [] {
      var n := RunLength(kids);
      if n == 0 {
        LinkIsMarker(kids[0]);
        LayoutTexts(kids[0], level, tag, inside);
        KidsTexts(kids[1..], level, tag, inside);
        NodesConcat(Layout(kids[0], level), KidsLayout(kids[1..], level), tag, inside);
        ReadConcat(WordsUnder(kids[0], tag, inside), WordsUnderAll(kids[1..], tag, inside));
      } else {
        LinkNames();
        var name, linked, rest := LinkTag(kids, "link_?"), LinkedLayout(kids, level), KidsLayout(kids[n..], level);
        LinkTagIsNoPart(kids, "link_?", tag);
        LinkedTexts(kids, level, tag, inside);
        KidsTexts(kids[n..], level, tag, inside);
        PlainElement(name, linked, tag, inside);
        NodesConcat([Elem(name, linked)], rest, tag, inside);
        assert kids == kids[..n] + kids[n..];
        WordsConcat(kids[..n], kids[n..], tag, inside);
        ReadConcat(WordsUnderAll(kids[..n], tag, inside), WordsUnderAll(kids[n..], tag, inside));
      }
    }
  }

  lemma {:induction false} LinkTagIsNoPart(kids: seq<Entity>, name: string, tag: string)
    requires name in {"link_?", "link_&", "link_|"} && NameOk(name) && tag in PART_TAGS
    ensures LinkTag(kids, name) != tag && LinkTag(kids, name) != "text"
    decreases |kids|
  {
    hide IsLink, SaysAnd, SaysOr, NameOk;
    LinkNames();
    if kids != [] && IsLink(kids[0]) {
      LinkTagIsNoPart(kids[1..],
        if SaysAnd(kids[0].text) then "link_&" else if SaysOr(kids[0].text) then "link_|" else name, tag);
    }
  }

  lemma {:induction false} LinkedTexts(kids: seq<Entity>, level: nat, tag: string, inside: bool)
    requires AllKeysOk(kids) && tag in PART_TAGS
    ensures NodeTexts(LinkedLayout(kids, level), tag, inside) ==
      ReadAll(WordsUnderAll(kids[..RunLength(kids)], tag, inside))
    ensures Spaced(LinkedLayout(kids, level))
    decreases kids, 1
  {
    hide NodeTexts, Spaced, KeysOk, Layout, ReadAll, WordsUnder, IsLink, Conjunction, SaysAnd, SaysOr;
    NothingWritten(tag, inside);
    if kids != [] && IsLink(kids[0]) {
      var n := RunLength(kids);
      LinkIsMarker(kids[0]);
      LayoutTexts(kids[0], level, tag, inside);
      LinkedTexts(kids[1..], level, tag, inside);
      var run := kids[..n];
      assert run[0] == kids[0] && run[1..] == kids[1..][..n - 1];
      var head := if Conjunction(kids[0]) then [] else Layout(kids[0], level);
      NodesConcat(head, LinkedLayout(kids[1..], level), tag, inside);
      ReadConcat(if Conjunction(kids[0]) then [] else WordsUnder(kids[0], tag, inside),
                 WordsUnderAll(run[1..], tag, inside));
    }
  }

  // ---- the fact of a tree ------------------------------------------------------------------------

  /** The fact that the text of the tree is read as. */
  function FactOf(e: Entity): Xml {
    ListNode("fact", Content("fact", RootNodes(e), ""))
  }

  /** Under each part of the fact of a tree stand the words under the nodes marked for this part,
      and all in all the words of the tree, in their order, as the reader reads them. */
  lemma FactHasWords(e: Entity, tag: string, inside: bool)
    requires KeysOk(e) && e.virt == [] && ToKey(e) == "s-all" && tag in PART_TAGS
    ensures TextsUnder(FactOf(e), tag, inside) == ReadAll(WordsUnder(e, tag, inside))
  {
    hide NodeTexts, Spaced, KeysOk, ToKey, KidsLayout, Content, ReadAll, ReadText, WordsUnderAll, TextsUnderAll;
    var inner := if e.text != "" then [Elem("text", [Chars(e.text)])] else KidsLayout(e.embed, 1);
    if e.text != "" {
      TextElement(e.text, tag, inside);
      OneRead(e.text);
      NothingWritten(tag, inside);
    } else {
      KidsKeysOk(e);
      KidsTexts(e.embed, 1, tag, inside);
    }
    RootSpaces(inner, tag, inside);
    NothingIsSpaces();
    ContentTexts("fact", RootNodes(e), "", tag, inside);
  }

  lemma RootSpaces(inner: seq<Node>, tag: string, inside: bool)
    requires Spaced(inner)
    ensures Spaced([Chars("\n")] + inner)
    ensures NodeTexts([Chars("\n")] + inner, tag, inside) == NodeTexts(inner, tag, inside)
  {
    hide ReadText;
    var nodes := [Chars("\n")] + inner;
    assert nodes[1..] == inner;
    assert NodeTexts(nodes, tag, inside) == [] + NodeTexts(inner, tag, inside);
  }

  // ---- parses ------------------------------------------------------------------------------------

  lemma WellFormedKey(e: Entity)
    requires WellFormed(e)
    ensures ToKey(e) != "" && ToKey(e)[0] != 'v'
  {
    var name := NameOrNull(e);
    assert ToKey(e)[0] == name[0];
    assert "d-"[0] == 'd' && "s-"[0] == 's' && "r-"[0] == 'r' && "null"[0] == 'n';
  }

  /** The nodes of a tree that is built from words and rules have keys of symbols. */
  lemma {:induction false} BuiltKeysOk(red: ReduceMap, words: seq<Entity>, e: Entity, ms: seq<string>)
    requires RedOk(red) && WordsOk(words) && Built(red, words, e, ms)
    ensures KeysOk(e)
    decreases e
  {
    hide ToKey, WellFormed, RuleOk;
    if w :| w in words && w.embed == [] && e == w.(virt := w.virt + ms) {
      assert ElementOk(w);
      if e.virt == [] { WellFormedKey(w); SameKey(w, e); }
    } else {
      var rule :| InRed(red, rule) && IsNode(rule, e, ms) &&
        forall i :: 0 <= i < |e.embed| ==> Built(red, words, e.embed[i], MarkersOf(rule.body[i]));
      TargetIsSymbol(red, rule);
      if e.virt == [] { WellFormedKey(rule.target); SameKey(rule.target, e); }
      forall k | 0 <= k < |e.embed| ensures KeysOk(e.embed[k]) {
        BuiltKeysOk(red, words, e.embed[k], MarkersOf(rule.body[k]));
      }
    }
  }

  lemma TargetIsSymbol(red: ReduceMap, rule: ReduceRule)
    requires RedOk(red) && InRed(red, rule)
    ensures WellFormed(rule.target) && forall b :: b in rule.body ==> WellFormed(b)
  {
    assert RuleOk(rule);
    forall b | b in rule.body ensures WellFormed(b) { assert ElementOk(b); }
  }

  lemma SameKey(a: Entity, e: Entity)
    requires e.data == a.data && e.symbol == a.symbol && e.repl == a.repl && e.order == a.order
    ensures ToKey(e) == ToKey(a) && Primary(e) == Primary(a)
  {
  }

  // ---- no word gets lost ---------------------------------------------------------------------------

  /** A symbol that is marked like a linking word or a comma is one. */
  predicate FirstMarkerOk(e: Entity) {
    e.virt != [] && e.virt[0] in SILENT ==> Primary(e) in SILENT
  }

  /** The keys of linking words and commas. */
  predicate SilentKey(key: string) {
    key in SILENT || "d-linking/" <= key || "d-komma/" <= key
  }

  lemma PrimaryOfKey(e: Entity)
    requires WellFormed(e)
    ensures Primary(e) in SILENT ==> SilentKey(ToKey(e))
    ensures ToKey(e) in SILENT ==> Primary(e) in SILENT
  {
    assert e.order < 0 ==> ToKey(e) == NameOrNull(e) + "" == NameOrNull(e);
    if Primary(e) in SILENT && e.order >= 0 {
      assert ToKey(e) == Primary(e) + ("/" + Decimal(e.order));
      assert Primary(e) + "/" <= ToKey(e);
      assert "d-linking" + "/" == "d-linking/" && "d-komma" + "/" == "d-komma/";
    }
    if ToKey(e) in SILENT {
      var s := BLANK.(data := ToKey(e));
      SilentSymbol(ToKey(e));
      KeyInjective(e, s);
    }
  }

  lemma SilentSymbol(name: string)
    requires name in SILENT
    ensures var s := BLANK.(data := name); WellFormed(s) && ToKey(s) == name
  {
    var s := BLANK.(data := name);
    assert name[0] == 'd' && "null"[0] == 'n' && "d-" <= name;
    assert !AllDigits(name) by { assert !IsDigit(name[0]); }
    assert NoneOf(name, {'/'}) by {
      assert "d-linking" == ['d', '-', 'l', 'i', 'n', 'k', 'i', 'n', 'g'];
      assert "d-komma" == ['d', '-', 'k', 'o', 'm', 'm', 'a'];
    }
    assert name + "" == name;
  }

  /** The rules mark no other symbols like these, and derive nothing from them. */
  ghost predicate RulesMarkOk(red: ReduceMap) {
    forall rule :: InRed(red, rule) ==>
      (forall b :: b in rule.body ==> FirstMarkerOk(b)) && FirstMarkerOk(rule.target) && Primary(rule.target) !in SILENT
  }

  predicate WordsMarkOk(words: seq<Entity>) {
    forall w :: w in words ==> FirstMarkerOk(w)
  }

  /** What may be missing: words without a text, conjunctions, linking words and commas. */
  predicate MayDrop(leaf: (string, string)) {
    leaf.1 == "" || SaysLink(leaf.1) || SilentKey(leaf.0)
  }

  /** The words `ws` are the texts of the leaves, in order, but for some that may be missing. */
  ghost predicate Keeps(leaves: seq<(string, string)>, ws: seq<string>)
    decreases |leaves|
  {
    if leaves == [] then ws == []
    else
      || (ws != [] && ws[0] == leaves[0].1 && Keeps(leaves[1..], ws[1..]))
      || (MayDrop(leaves[0]) && Keeps(leaves[1..], ws))
  }

  lemma {:induction false} KeepsConcat(a: seq<(string, string)>, b: seq<(string, string)>,
                                       u: seq<string>, v: seq<string>)
    requires Keeps(a, u) && Keeps(b, v)
    ensures Keeps(a + b, u + v)
    decreases |a|
  {
    hide MayDrop;
    if a == [] {
      assert a + b == b && u + v == v;
    } else {
      assert (a + b)[1..] == a[1..] + b && (a + b)[0] == a[0];
      if u != [] && u[0] == a[0].1 && Keeps(a[1..], u[1..]) {
        KeepsConcat(a[1..], b, u[1..], v);
        assert (u + v)[1..] == u[1..] + v && (u + v)[0] == u[0];
      } else {
        KeepsConcat(a[1..], b, u, v);
      }
    }
  }

  lemma KeepsOne(leaf: (string, string), ws: seq<string>)
    requires ws == [leaf.1] || (ws == [] && MayDrop(leaf))
    ensures Keeps([leaf], ws)
  {
    assert [leaf][1..] == [] && Keeps([], []);
    if ws == [leaf.1] { assert ws[1..] == []; }
  }

  /** A node that is not written is a linking word or a comma: it is marked by an element of its key. */
  lemma SilentIsWord(red: ReduceMap, words: seq<Entity>, e: Entity, b: Entity)
    requires RedOk(red) && WordsOk(words) && RulesMarkOk(red) && WordsMarkOk(words)
    requires Built(red, words, e, MarkersOf(b)) && Silent(e)
    requires WellFormed(b) && FirstMarkerOk(b) && ToKey(e) == ToKey(b)
    ensures e.embed == [] && SilentKey(ToKey(e))
  {
    hide ToKey, WellFormed, RuleOk, Built, SilentKey;
    var base := BaseOf(red, words, e, MarkersOf(b));
    SameKey(base, e);
    PrimaryOfKey(base);
    KeyInjective(base, b);
    assert Primary(e) in SILENT;
    if e.embed != [] {
      InnerIsTarget(red, words, e, MarkersOf(b));
    }
  }

  /** What a node was before it was marked: a word, or the target of a rule. */
  lemma BaseOf(red: ReduceMap, words: seq<Entity>, e: Entity, ms: seq<string>) returns (base: Entity)
    requires RedOk(red) && WordsOk(words) && RulesMarkOk(red) && WordsMarkOk(words) && Built(red, words, e, ms)
    ensures WellFormed(base) && FirstMarkerOk(base) && e.virt == base.virt + ms
    ensures e.data == base.data && e.symbol == base.symbol && e.repl == base.repl && e.order == base.order
  {
    hide WellFormed, RuleOk, Built;
    if w :| w in words && w.embed == [] && e == w.(virt := w.virt + ms) {
      base := w;
      assert ElementOk(w);
    } else {
      var rule := RuleOfNode(red, words, e, ms);
      TargetIsSymbol(red, rule);
      base := rule.target;
    }
  }

  lemma RuleOfNode(red: ReduceMap, words: seq<Entity>, e: Entity, ms: seq<string>) returns (rule: ReduceRule)
    requires Built(red, words, e, ms) && !exists w :: w in words && w.embed == [] && e == w.(virt := w.virt + ms)
    ensures InRed(red, rule) && IsNode(rule, e, ms)
    ensures forall i :: 0 <= i < |e.embed| ==> Built(red, words, e.embed[i], MarkersOf(rule.body[i]))
  {
    rule :| InRed(red, rule) && IsNode(rule, e, ms) &&
      forall i :: 0 <= i < |e.embed| ==> Built(red, words, e.embed[i], MarkersOf(rule.body[i]));
  }

  lemma InnerIsTarget(red: ReduceMap, words: seq<Entity>, e: Entity, ms: seq<string>)
    requires RulesMarkOk(red) && Built(red, words, e, ms) && e.embed != []
    ensures Primary(e) !in SILENT && e.text == ""
  {
    hide Built;
    assert !exists w :: w in words && w.embed == [] && e == w.(virt := w.virt + ms);
    var rule := RuleOfNode(red, words, e, ms);
    SameKey(rule.target, e);
  }

  /** The words of a tree as it is written are those of its leaves, in order; only words without a
      text, conjunctions, linking words and commas can be missing. */
  lemma {:induction false} WordsAreKept(red: ReduceMap, words: seq<Entity>, e: Entity, ms: seq<string>, tag: string)
    requires RedOk(red) && WordsOk(words) && RulesMarkOk(red) && WordsMarkOk(words)
    requires Built(red, words, e, ms) && (Silent(e) ==> e.embed == [] && SilentKey(ToKey(e)))
    ensures Keeps(Leaves(e), WordsUnder(e, tag, true))
    decreases e, 1
  {
    hide ToKey, RedOk, WordsOk, RulesMarkOk, WordsMarkOk, Built, Keeps, SilentKey, Silent, AllLeaves, WordsUnderAll;
    if e.embed == [] {
      NoKidWords(tag, true);
      KeepsOne((ToKey(e), e.text), WordsUnder(e, tag, true));
    } else {
      InnerIsTarget(red, words, e, ms);
      assert !exists w :: w in words && w.embed == [] && e == w.(virt := w.virt + ms);
      var rule := RuleOfNode(red, words, e, ms);
      KidsAreKept(red, words, rule, e.embed, rule.body, tag);
    }
  }

  lemma {:induction false} KidsAreKept(red: ReduceMap, words: seq<Entity>, rule: ReduceRule, kids: seq<Entity>,
                                       body: seq<Entity>, tag: string)
    requires RedOk(red) && WordsOk(words) && RulesMarkOk(red) && WordsMarkOk(words) && InRed(red, rule)
    requires |kids| == |body| && Keys(kids) == Keys(body) && forall b :: b in body ==> b in rule.body
    requires forall i :: 0 <= i < |kids| ==> Built(red, words, kids[i], MarkersOf(body[i]))
    ensures Keeps(AllLeaves(kids), WordsUnderAll(kids, tag, true))
    decreases kids, 0
  {
    hide ToKey, RedOk, WordsOk, RulesMarkOk, WordsMarkOk, Built, Keeps, SilentKey, Silent, Leaves, WordsUnder,
         Conjunction;
    NothingKept();
    if kids != [] {
      assert Keys(kids[1..]) == Keys(kids)[1..] == Keys(body)[1..] == Keys(body[1..]);
      KidsAreKept(red, words, rule, kids[1..], body[1..], tag);
      assert ToKey(kids[0]) == Keys(kids)[0] == Keys(body)[0] == ToKey(body[0]);
      ElementMarks(red, rule, body[0]);
      if Silent(kids[0]) { SilentIsWord(red, words, kids[0], body[0]); }
      if Conjunction(kids[0]) {
        ConjunctionIsWord(red, words, kids[0], MarkersOf(body[0]));
      } else {
        WordsAreKept(red, words, kids[0], MarkersOf(body[0]), tag);
      }
      KeepsConcat(Leaves(kids[0]), AllLeaves(kids[1..]),
                  if Conjunction(kids[0]) then [] else WordsUnder(kids[0], tag, true),
                  WordsUnderAll(kids[1..], tag, true));
    }
  }

  lemma NothingKept()
    ensures Keeps([], [])
  {
  }

  lemma ElementMarks(red: ReduceMap, rule: ReduceRule, b: Entity)
    requires RedOk(red) && RulesMarkOk(red) && InRed(red, rule) && b in rule.body
    ensures WellFormed(b) && FirstMarkerOk(b)
  {
    TargetIsSymbol(red, rule);
  }

  lemma ConjunctionIsWord(red: ReduceMap, words: seq<Entity>, e: Entity, ms: seq<string>)
    requires RulesMarkOk(red) && Built(red, words, e, ms) && Conjunction(e)
    ensures Keeps(Leaves(e), [])
  {
    hide RulesMarkOk, Built;
    if e.embed != [] { InnerIsTarget(red, words, e, ms); }
    KeepsOne((ToKey(e), e.text), []);
  }

  /** Under each part of the fact stand the words under the nodes of the tree that are marked for
      this part, and all in all the words of the tree, in order, as the reader reads them. */
  ghost predicate SaysTree(fact: Xml, e: Entity) {
    forall tag, inside :: tag in PART_TAGS ==> TextsUnder(fact, tag, inside) == ReadAll(WordsUnder(e, tag, inside))
  }

  /** The words of the tree are those of the leaves, in order, but for some that may be missing. */
  ghost predicate KeepsLeaves(leaves: seq<(string, string)>, e: Entity) {
    forall tag :: Keeps(leaves, WordsUnder(e, tag, true))
  }

  /** The fact of a parse says what the parse says, and where only linking words and commas are
      marked as such, the parse has all words but conjunctions, linking words and commas. */
  lemma ParseHasWords(red: ReduceMap, words: seq<Entity>, e: Entity)
    requires RedOk(red) && WordsOk(words) && Built(red, words, e, []) && e.virt == [] && ToKey(e) == "s-all"
    ensures SaysTree(FactOf(e), e)
    ensures RulesMarkOk(red) && WordsMarkOk(words) ==> KeepsLeaves(Leaves(e), e)
  {
    hide ToKey, RedOk, WordsOk, RulesMarkOk, WordsMarkOk, Built, Keeps, TextsUnder, FactOf, WordsUnder, ReadAll,
         Leaves;
    BuiltKeysOk(red, words, e, []);
    forall tag, inside | tag in PART_TAGS
      ensures TextsUnder(FactOf(e), tag, inside) == ReadAll(WordsUnder(e, tag, inside)) {
      FactHasWords(e, tag, inside);
    }
    if RulesMarkOk(red) && WordsMarkOk(words) {
      forall tag ensures Keeps(Leaves(e), WordsUnder(e, tag, true)) {
        WordsAreKept(red, words, e, [], tag);
      }
    }
  }

  lemma {:induction false} KeptMember(leaves: seq<(string, string)>, ws: seq<string>, leaf: (string, string))
    requires Keeps(leaves, ws) && leaf in leaves && !MayDrop(leaf)
    ensures leaf.1 in ws
    decreases |leaves|
  {
    hide MayDrop;
    if leaf != leaves[0] {
      if ws != [] && ws[0] == leaves[0].1 && Keeps(leaves[1..], ws[1..]) {
        KeptMember(leaves[1..], ws[1..], leaf);
      } else {
        KeptMember(leaves[1..], ws, leaf);
      }
    }
  }

  lemma {:induction false} ReadMember(ws: seq<string>, w: string)
    requires w in ws
    ensures forall t :: t in ReadText(w) ==> t in ReadAll(ws)
    decreases |ws|
  {
    hide ReadText;
    if w != ws[0] { ReadMember(ws[1..], w); }
  }

  /** Every accepted word that is no conjunction, linking word or comma is in the fact; if it is in
      normal form, just as it is. */
  lemma WordIsInFact(leaves: seq<(string, string)>, e: Entity, fact: Xml, leaf: (string, string), tag: string)
    requires SaysTree(fact, e) && KeepsLeaves(leaves, e) && tag in PART_TAGS && leaf in leaves && !MayDrop(leaf)
    ensures forall t :: t in ReadText(leaf.1) ==> t in TextsUnder(fact, tag, true)
    ensures NormalText(leaf.1) ==> leaf.1 in TextsUnder(fact, tag, true)
  {
    hide TextsUnder, WordsUnder, ReadAll, ReadText, Keeps, MayDrop, NormalText;
    KeptMember(leaves, WordsUnder(e, tag, true), leaf);
    ReadMember(WordsUnder(e, tag, true), leaf.1);
    if NormalText(leaf.1) { NormalIsRead(leaf.1); }
  }

  // ---- linked children ---------------------------------------------------------------------------

  predicate SaysAlso(text: string) { '&' in text || text in {"und", "and"} }

  lemma ConjunctionSays(text: string)
    ensures SaysAnd(text) <==> SaysAlso(text)
    ensures SaysAnd(text) || SaysOr(text) <==> SaysLink(text)
  {
    OccursChar('&', text);
    OccursChar('|', text);
    assert ['&'] == "&" && ['|'] == "|";
  }

  /** A run of linked children is written as "link_&" if its last conjunction is one of "&", "und"
      and "and", as "link_|" for any other one, and as "link_?" without a conjunction. */
  lemma {:induction false} LastConjunctionDecides(kids: seq<Entity>, name: string, i: nat)
    requires NameOk(name) && i <= RunLength(kids)
    requires forall j :: i < j < RunLength(kids) ==> !SaysLink(kids[j].text)
    ensures i < RunLength(kids) && SaysLink(kids[i].text) ==>
              LinkTag(kids, name) == if SaysAlso(kids[i].text) then "link_&" else "link_|"
    ensures (forall j :: 0 <= j < RunLength(kids) ==> !SaysLink(kids[j].text)) ==> LinkTag(kids, name) == name
    decreases |kids|
  {
    hide IsLink, SaysAnd, SaysOr, SaysLink, SaysAlso, NameOk;
    LinkNames();
    if kids != [] && IsLink(kids[0]) {
      var rest, n := kids[1..], RunLength(kids);
      ConjunctionSays(kids[0].text);
      var next := if SaysAnd(kids[0].text) then "link_&" else if SaysOr(kids[0].text) then "link_|" else name;
      assert forall j :: 0 <= j < n - 1 ==> rest[j] == kids[j + 1];
      LastConjunctionDecides(rest, next, if i == 0 then RunLength(rest) else i - 1);
      if i == 0 {
        forall j | 0 <= j < RunLength(rest) ensures !SaysLink(rest[j].text) { assert rest[j] == kids[j + 1]; }
      }
    }
  }
}
