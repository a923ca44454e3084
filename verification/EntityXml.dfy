/** A parse tree written out as an XML fact: runs of linked children are grouped. */
module EntityXml {
  import opened Text
  import opened Entities
  import opened XmlCodec
  import opened Reduction

  function GrammarKey(e: Entity): string {
    if e.virt != [] then e.virt[0] else ToKey(e)
  }

  /** The tag a grammar key is written under, "" for none. */
  function TagOf(key: string): (tag: string)
    ensures tag == "" || NameOk(tag)
  {
    if key == "s-all" then "fact"
    else if key == "v-subject" then "subject"
    else if key == "v-object" then "object"
    else if key == "v-questionword" then "questionword"
    else if StartsWith(key, "v-extra-") then "extra"
    else if key == "v-verb" then "verb"
    else if StartsWith(key, "v-clause-") && key != "v-clause-1" then "clause"
    else if key == "v-adverb" then "adverbs"
    else if key == "v-linked" then "linked"
    else if key == "d-linking" then "linking"
    else ""
  }

  predicate IsLink(e: Entity) {
    StartsWith(GrammarKey(e), "v-link")
  }

  predicate SaysAnd(text: string) { Occurs("&", text) || text == "und" || text == "and" }

  predicate SaysOr(text: string) { Occurs("|", text) || text == "oder" || text == "or" }

  /** The tag of a run of linked children: its last conjunction decides. */
  function LinkTag(kids: seq<Entity>, tag: string): (r: string)
    requires NameOk(tag)
    ensures NameOk(r)
    decreases |kids|
  {
    if kids == [] || !IsLink(kids[0]) then tag
    else LinkTag(kids[1..], if SaysAnd(kids[0].text) then "link_&" else if SaysOr(kids[0].text) then "link_|" else tag)
  }

  /** How many linked children there are from the first on. */
  function RunLength(kids: seq<Entity>): (n: nat)
    ensures n <= |kids| && (forall i :: 0 <= i < n ==> IsLink(kids[i])) && (n < |kids| ==> !IsLink(kids[n]))
  {
    if kids == [] || !IsLink(kids[0]) then 0 else 1 + RunLength(kids[1..])
  }

  function Open(level: nat): string { if level == 0 then "\n" else "" }

  function Close(level: nat): string { if level <= 1 then "\n" else "" }

  function LevelOf(tag: string, level: nat): nat { if tag == "clause" then 0 else level }

  function Deeper(tag: string, level: nat): nat { if tag != "" then level + 1 else level }

  /** `to_xml` */
  function ToXml(e: Entity, level: nat): string
    decreases e, 3
  {
    var key := GrammarKey(e);
    var tag := TagOf(key);
    var l := LevelOf(tag, level);
    if key == "d-linking" || key == "d-komma" then ""
    else
      var inner :=
        if e.text != "" then "<text>" + e.text + "</text>"
        else KidsXml(e.embed, Deeper(tag, l));
      if tag == "" then inner else "<" + tag + ">" + Open(l) + inner + "</" + tag + ">" + Close(l)
  }

  function KidsXml(kids: seq<Entity>, level: nat): string
    decreases kids, 2
  {
    var n := RunLength(kids);
    if kids == [] then ""
    else if n == 0 then ToXml(kids[0], level) + KidsXml(kids[1..], level)
    else
      var tag := LinkTag(kids, "link_?");
      "<" + tag + ">" + LinkedXml(kids, level) + "</" + tag + ">" + KidsXml(kids[n..], level)
  }

  /** The linked children from the first on, without the conjunctions. */
  function LinkedXml(kids: seq<Entity>, level: nat): string
    decreases kids, 1
  {
    if kids == [] || !IsLink(kids[0]) then ""
    else
      (if SaysAnd(kids[0].text) || SaysOr(kids[0].text) then "" else ToXml(kids[0], level)) +
      LinkedXml(kids[1..], level)
  }

  /** `to_xml` as it runs: an inner loop collects each run of linked children. */
  method ToXmlLoop(e: Entity, level: nat) returns (xml: string)
    ensures xml == ToXml(e, level)
    decreases e, 1
  {
    hide GrammarKey, TagOf, KidsXml, LinkedXml, LinkTag, RunLength, NameOk, SaysAnd, SaysOr;
    var key := GrammarKey(e);
    var tag := TagOf(key);
    var l := LevelOf(tag, level);
    if key == "d-linking" || key == "d-komma" {
      return "";
    }
    var inner := "";
    if |e.text| > 0 {
      inner := "<text>" + e.text + "</text>";
    } else if |e.embed| > 0 && key != "d-komma" {
      var deeper := Deeper(tag, l);
      var it := 0;
      assert e.embed[0..] == e.embed;
      while it < |e.embed|
        invariant 0 <= it <= |e.embed|
        invariant inner + KidsXml(e.embed[it..], deeper) == KidsXml(e.embed, deeper)
      {
        KidsStep(e.embed[it..], deeper);
        var embedded := ToXmlLoop(e.embed[it], deeper);
        if StartsWith(GrammarKey(e.embed[it]), "v-link") {
          var linkTag, linked, it2 := LinkRun(e.embed, it, deeper);
          assert e.embed[it..][it2 - it..] == e.embed[it2..];
          inner := inner + ("<" + linkTag + ">" + linked + "</" + linkTag + ">");
          it := it2;
        } else {
          assert e.embed[it..][1..] == e.embed[it + 1..];
          inner := inner + embedded;
          it := it + 1;
        }
      }
    }
    KidsEnd(e.embed[|e.embed|..], Deeper(tag, l));
    xml := if tag == "" then inner else "<" + tag + ">" + Open(l) + inner + "</" + tag + ">" + Close(l);
  }

  /** The inner loop: the run of linked children from `it` on. */
  method LinkRun(kids: seq<Entity>, it: nat, level: nat) returns (linkTag: string, linked: string, it2: nat)
    requires it < |kids| && NameOk("link_?")
    ensures it <= it2 <= |kids| && it2 - it == RunLength(kids[it..])
    ensures linkTag == LinkTag(kids[it..], "link_?") && linked == LinkedXml(kids[it..], level)
    decreases kids, 0
  {
    hide GrammarKey, KidsXml, LinkedXml, LinkTag, RunLength, NameOk, SaysAnd, SaysOr, ToXml;
    linkTag, linked, it2 := "link_?", "", it;
    while it2 < |kids| && StartsWith(GrammarKey(kids[it2]), "v-link")
      invariant it <= it2 <= |kids| && NameOk(linkTag)
      invariant linked + LinkedXml(kids[it2..], level) == LinkedXml(kids[it..], level)
      invariant LinkTag(kids[it2..], linkTag) == LinkTag(kids[it..], "link_?")
      invariant it2 - it + RunLength(kids[it2..]) == RunLength(kids[it..])
    {
      LinkStep(kids[it2..], linkTag, level);
      assert kids[it2..][1..] == kids[it2 + 1..];
      var embedded := ToXmlLoop(kids[it2], level);
      if SaysAnd(kids[it2].text) {
        linkTag := "link_&";
      } else if SaysOr(kids[it2].text) {
        linkTag := "link_|";
      } else {
        linked := linked + embedded;
      }
      it2 := it2 + 1;
    }
    LinkEnd(kids[it2..], linkTag, level);
  }

  lemma KidsStep(kids: seq<Entity>, level: nat)
    requires kids != []
    ensures NameOk("link_?")
    ensures if IsLink(kids[0]) then
              var tag, n := LinkTag(kids, "link_?"), RunLength(kids);
              KidsXml(kids, level) ==
                "<" + tag + ">" + LinkedXml(kids, level) + "</" + tag + ">" + KidsXml(kids[n..], level)
            else KidsXml(kids, level) == ToXml(kids[0], level) + KidsXml(kids[1..], level)
  {
  }

  lemma KidsEnd(kids: seq<Entity>, level: nat)
    requires kids == []
    ensures KidsXml(kids, level) == ""
  {
  }

  lemma LinkStep(kids: seq<Entity>, tag: string, level: nat)
    requires kids != [] && IsLink(kids[0]) && NameOk(tag)
    ensures NameOk("link_&") && NameOk("link_|")
    ensures RunLength(kids) == 1 + RunLength(kids[1..])
    ensures LinkTag(kids, tag) ==
      LinkTag(kids[1..], if SaysAnd(kids[0].text) then "link_&" else if SaysOr(kids[0].text) then "link_|" else tag)
    ensures LinkedXml(kids, level) ==
      (if SaysAnd(kids[0].text) || SaysOr(kids[0].text) then "" else ToXml(kids[0], level)) +
      LinkedXml(kids[1..], level)
  {
  }

  lemma LinkEnd(kids: seq<Entity>, tag: string, level: nat)
    requires (kids == [] || !IsLink(kids[0])) && NameOk(tag)
    ensures RunLength(kids) == 0 && LinkTag(kids, tag) == tag && LinkedXml(kids, level) == ""
  {
  }

  // ---- as a layout -----------------------------------------------------------------------

  function Layout(e: Entity, level: nat): seq<Node>
    decreases e, 3
  {
    var key := GrammarKey(e);
    var tag := TagOf(key);
    var l := LevelOf(tag, level);
    if key == "d-linking" || key == "d-komma" then []
    else
      var inner := if e.text != "" then [Elem("text", [Chars(e.text)])] else KidsLayout(e.embed, Deeper(tag, l));
      if tag == "" then inner else [Elem(tag, [Chars(Open(l))] + inner), Chars(Close(l))]
  }

  function KidsLayout(kids: seq<Entity>, level: nat): seq<Node>
    decreases kids, 2
  {
    var n := RunLength(kids);
    if kids == [] then []
    else if n == 0 then Layout(kids[0], level) + KidsLayout(kids[1..], level)
    else [Elem(LinkTag(kids, "link_?"), LinkedLayout(kids, level))] + KidsLayout(kids[n..], level)
  }

  function LinkedLayout(kids: seq<Entity>, level: nat): seq<Node>
    decreases kids, 1
  {
    if kids == [] || !IsLink(kids[0]) then []
    else
      (if SaysAnd(kids[0].text) || SaysOr(kids[0].text) then [] else Layout(kids[0], level)) +
      LinkedLayout(kids[1..], level)
  }

  /** No text holds an angle bracket. */
  predicate TextsOk(e: Entity) {
    NoAngle(e.text) && forall k | 0 <= k < |e.embed| :: TextsOk(e.embed[k])
  }

  predicate KidsOk(kids: seq<Entity>) {
    forall k | 0 <= k < |kids| :: TextsOk(kids[k])
  }

  lemma {:induction false} NodesConcatOk(a: seq<Node>, b: seq<Node>)
    requires NodesOk(a) && NodesOk(b)
    ensures NodesOk(a + b)
    decreases |a|
  {
    if a == [] {
      assert a + b == b;
    } else {
      NodesConcatOk(a[1..], b);
      assert (a + b)[1..] == a[1..] + b && (a + b)[0] == a[0];
    }
  }

  lemma ElemOk(name: string, kids: seq<Node>)
    requires NameOk(name) && NodesOk(kids)
    ensures NodesOk([Elem(name, kids)])
  {
    assert [Elem(name, kids)][1..] == [];
  }

  lemma CharsOk(s: string)
    requires NoAngle(s)
    ensures NodesOk([Chars(s)])
  {
    assert [Chars(s)][1..] == [];
  }

  lemma {:induction false} RenderElem(name: string, kids: seq<Node>, rest: seq<Node>)
    ensures Render([Elem(name, kids)] + rest) == "<" + name + ">" + Render(kids) + "</" + name + ">" + Render(rest)
  {
  }

  /** What is written is well nested: it renders a layout of elements. */
  lemma {:induction false} ToXmlIsLayout(e: Entity, level: nat)
    requires TextsOk(e)
    ensures Render(Layout(e, level)) == ToXml(e, level) && NodesOk(Layout(e, level))
    decreases e, 3
  {
    hide TagOf, GrammarKey, NameOk, Render, KidsXml, KidsLayout, NodesOk;
    var key := GrammarKey(e);
    var tag := TagOf(key);
    var l := LevelOf(tag, level);
    var inner: seq<Node>;
    var text: string;
    NoNodes();
    if e.text != "" {
      inner := [Elem("text", [Chars(e.text)])];
      text := "<text>" + e.text + "</text>";
      TextLayout(e.text);
    } else {
      inner := KidsLayout(e.embed, Deeper(tag, l));
      text := KidsXml(e.embed, Deeper(tag, l));
      KidsXmlIsLayout(e.embed, Deeper(tag, l));
    }
    if tag != "" {
      TagLayout(tag, inner, Open(l), Close(l));
    }
  }

  lemma NoNodes()
    ensures NodesOk([]) && Render([]) == ""
  {
  }

  lemma TextLayout(text: string)
    requires NoAngle(text)
    ensures Render([Elem("text", [Chars(text)])]) == "<text>" + text + "</text>"
    ensures NodesOk([Elem("text", [Chars(text)])])
  {
  }

  lemma TagLayout(tag: string, inner: seq<Node>, open: string, close: string)
    requires NameOk(tag) && NodesOk(inner) && NoAngle(open) && NoAngle(close)
    ensures var nodes := [Elem(tag, [Chars(open)] + inner), Chars(close)];
            NodesOk(nodes) && Render(nodes) == "<" + tag + ">" + open + Render(inner) + "</" + tag + ">" + close
  {
    hide NameOk, NodesOk, Render;
    var kids := [Chars(open)] + inner;
    CharsOk(open);
    CharsOk(close);
    NodesConcatOk([Chars(open)], inner);
    ElemOk(tag, kids);
    NodesConcatOk([Elem(tag, kids)], [Chars(close)]);
    RenderConcat([Chars(open)], inner);
    RenderOne(Chars(open));
    RenderOne(Chars(close));
    RenderElem(tag, kids, [Chars(close)]);
    assert [Elem(tag, kids)] + [Chars(close)] == [Elem(tag, kids), Chars(close)];
  }

  lemma {:induction false} KidsXmlIsLayout(kids: seq<Entity>, level: nat)
    requires KidsOk(kids)
    ensures Render(KidsLayout(kids, level)) == KidsXml(kids, level) && NodesOk(KidsLayout(kids, level))
    decreases kids, 2
  {
    hide NameOk, Render, NodesOk, Layout, ToXml, LinkedXml, LinkedLayout, LinkTag, TextsOk;
    NoNodes();
    if kids != [] {
      var n := RunLength(kids);
      if n == 0 {
        ToXmlIsLayout(kids[0], level);
        KidsXmlIsLayout(kids[1..], level);
        RenderConcat(Layout(kids[0], level), KidsLayout(kids[1..], level));
        NodesConcatOk(Layout(kids[0], level), KidsLayout(kids[1..], level));
      } else {
        LinkOk();
        var tag, linked, rest := LinkTag(kids, "link_?"), LinkedLayout(kids, level), KidsLayout(kids[n..], level);
        LinkedXmlIsLayout(kids, level);
        KidsXmlIsLayout(kids[n..], level);
        RenderElem(tag, linked, rest);
        ElemOk(tag, linked);
        NodesConcatOk([Elem(tag, linked)], rest);
      }
    }
  }

  lemma LinkOk()
    ensures NameOk("link_?")
  {
  }

  lemma {:induction false} LinkedXmlIsLayout(kids: seq<Entity>, level: nat)
    requires KidsOk(kids)
    ensures Render(LinkedLayout(kids, level)) == LinkedXml(kids, level) && NodesOk(LinkedLayout(kids, level))
    decreases kids, 1
  {
    hide NameOk, Render, NodesOk, Layout, ToXml, TextsOk, SaysAnd, SaysOr, IsLink;
    NoNodes();
    if kids != [] {
      ToXmlIsLayout(kids[0], level);
      LinkedXmlIsLayout(kids[1..], level);
      RenderConcat(Layout(kids[0], level), LinkedLayout(kids[1..], level));
      NodesConcatOk(Layout(kids[0], level), LinkedLayout(kids[1..], level));
      assert [] + LinkedLayout(kids[1..], level) == LinkedLayout(kids[1..], level);
    }
  }

  // ---- the groups ------------------------------------------------------------------------

  /** A child on its own, or a run of linked children. */
  datatype Group = Single(e: Entity) | Linked(es: seq<Entity>)

  function Members(g: Group): seq<Entity> {
    if g.Single? then [g.e] else g.es
  }

  function AllMembers(groups: seq<Group>): seq<Entity> {
    if groups == [] then [] else Members(groups[0]) + AllMembers(groups[1..])
  }

  /** Runs are non-empty, hold only linked children, and never follow each other. */
  predicate GroupsOk(groups: seq<Group>) {
    && (forall i :: 0 <= i < |groups| ==>
          if groups[i].Single? then !IsLink(groups[i].e)
          else groups[i].es != [] && forall e :: e in groups[i].es ==> IsLink(e))
    && (forall i :: 0 < i < |groups| ==> groups[i - 1].Single? || groups[i].Single?)
  }

  /** What a group is written as: a run makes one element. */
  function GroupXml(g: Group, level: nat): string {
    match g
    case Single(e) => ToXml(e, level)
    case Linked(es) => var tag := LinkTag(es, "link_?"); "<" + tag + ">" + LinkedXml(es, level) + "</" + tag + ">"
  }

  function GroupsXml(groups: seq<Group>, level: nat): string {
    if groups == [] then "" else GroupXml(groups[0], level) + GroupsXml(groups[1..], level)
  }

  function GroupsOf(kids: seq<Entity>): seq<Group>
    decreases |kids|
  {
    var n := RunLength(kids);
    if kids == [] then []
    else if n == 0 then [Single(kids[0])] + GroupsOf(kids[1..])
    else [Linked(kids[..n])] + GroupsOf(kids[n..])
  }

  lemma {:induction false} RunAlone(kids: seq<Entity>, tag: string, level: nat)
    requires NameOk(tag)
    ensures var run := kids[..RunLength(kids)];
            LinkTag(run, tag) == LinkTag(kids, tag) && LinkedXml(run, level) == LinkedXml(kids, level)
    decreases |kids|
  {
    hide IsLink, SaysAnd, SaysOr, NameOk, ToXml;
    var n := RunLength(kids);
    if n > 0 {
      var next := if SaysAnd(kids[0].text) then "link_&" else if SaysOr(kids[0].text) then "link_|" else tag;
      LinkNames();
      RunAlone(kids[1..], next, level);
      assert kids[..n][1..] == kids[1..][..n - 1] && kids[..n][0] == kids[0];
    }
  }

  lemma LinkNames()
    ensures NameOk("link_?") && NameOk("link_&") && NameOk("link_|")
  {
  }

  lemma GroupsJoin(g: Group, groups: seq<Group>)
    requires GroupsOk(groups)
    requires if g.Single? then !IsLink(g.e) else g.es != [] && forall e :: e in g.es ==> IsLink(e)
    requires g.Linked? && groups != [] ==> groups[0].Single?
    ensures GroupsOk([g] + groups) && AllMembers([g] + groups) == Members(g) + AllMembers(groups)
    ensures forall level :: GroupsXml([g] + groups, level) == GroupXml(g, level) + GroupsXml(groups, level)
  {
  }

  /** Every child falls into exactly one group, in order; the runs are as long as they can
      be; and the children are written group by group. */
  lemma {:induction false} KidsInGroups(kids: seq<Entity>, level: nat)
    ensures var groups := GroupsOf(kids);
            AllMembers(groups) == kids && GroupsOk(groups) && KidsXml(kids, level) == GroupsXml(groups, level)
    decreases |kids|
  {
    hide IsLink, ToXml, LinkTag, LinkedXml, NameOk, GroupsOk, AllMembers, GroupsXml;
    var n := RunLength(kids);
    if kids == [] {
      NoGroups(level);
    } else if n == 0 {
      KidsInGroups(kids[1..], level);
      GroupsJoin(Single(kids[0]), GroupsOf(kids[1..]));
    } else {
      KidsInGroups(kids[n..], level);
      LinkNames();
      RunAlone(kids, "link_?", level);
      assert n < |kids| ==> kids[n..][0] == kids[n];
      GroupsJoin(Linked(kids[..n]), GroupsOf(kids[n..]));
      assert kids == kids[..n] + kids[n..];
    }
  }

  lemma NoGroups(level: nat)
    ensures GroupsOk([]) && AllMembers([]) == [] && GroupsXml([], level) == ""
  {
  }

  // ---- read back ---------------------------------------------------------------------------

  /** A parse tree whose root is a fact is read back as one fact, and the reader consumes
      its lines exactly, whatever the grouping and the levels were. */
  lemma FactTreeIsRead(e: Entity)
    requires TextsOk(e) && TagOf(GrammarKey(e)) == "fact"
    ensures var lines := Lines(Tokens('\0', ToXml(e, 0)));
            var content := Content("fact", RootNodes(e), "");
            && lines == RootLines(RootNodes(e))
            && ReadFacts(lines, 0, []) == Facts([ListNode("fact", content)])
            && ReadTree(lines, 3, "fact", []) == Done(content, |lines| - 1)
  {
    hide Render, LinesOf, Tokens, Unlines, Lines, NodesOk, KidsLayout, KidsXml, TagOf, NameOk, ReadFacts, ReadTree,
         Content;
    var text := ToXml(e, 0);
    var nodes := RootNodes(e);
    ToXmlIsLayout(e, 0);
    RootOfLayout(e);
    RootTokens('\0', nodes);
    var lines := RootLines(nodes);
    RootOneLines(nodes);
    LinesOfUnlines(lines);
    assert lines[0..0 + |lines|] == lines;
    RootIsRead(lines, 0, [], nodes);
    NothingLeft(lines, [ListNode("fact", Content("fact", nodes, ""))]);
    assert [] + [ListNode("fact", Content("fact", nodes, ""))] == [ListNode("fact", Content("fact", nodes, ""))];
  }

  lemma NothingLeft(lines: seq<string>, acc: seq<Xml>)
    ensures ReadFacts(lines, |lines|, acc) == Facts(acc)
  {
  }

  /** What stands inside the root element. */
  function RootNodes(e: Entity): seq<Node> {
    [Chars("\n")] +
    if e.text != "" then [Elem("text", [Chars(e.text)])] else KidsLayout(e.embed, 1)
  }

  lemma FactKey(e: Entity)
    requires TagOf(GrammarKey(e)) == "fact"
    ensures GrammarKey(e) == "s-all" && LevelOf("fact", 0) == 0 && Deeper("fact", 0) == 1
  {
  }

  lemma RootOfLayout(e: Entity)
    requires TextsOk(e) && TagOf(GrammarKey(e)) == "fact"
    ensures Layout(e, 0) == [Elem("fact", RootNodes(e)), Chars("\n")]
    ensures ToXml(e, 0) == "<" + ("fact>" + ((Render(RootNodes(e)) + "<") + ("/fact>" + "\n"))) 
    ensures NodesOk(RootNodes(e))
  {
    hide Render, KidsLayout, KidsXml, TagOf, GrammarKey, NameOk;
    FactKey(e);
    ToXmlIsLayout(e, 0);
    var nodes := RootNodes(e);
    RenderElem("fact", nodes, [Chars("\n")]);
    RenderOne(Chars("\n"));
    assert [Elem("fact", nodes)] + [Chars("\n")] == [Elem("fact", nodes), Chars("\n")];
    Regroup("fact", Render(nodes));
    assert "fact" + ">" == "fact>" && "/" + "fact" + ">" == "/fact>";
  }

  lemma RootOneLines(nodes: seq<Node>)
    requires NodesOk(nodes)
    ensures forall l :: l in RootLines(nodes) ==> OneLine(l)
  {
    hide OneLine, LinesOf, NodesOk;
    NameFact();
    NameOneLine("fact");
    LayoutOneLines(nodes, "");
    MarksOneLine();
  }

  lemma {:induction false} LeavesOfKid(kids: seq<Entity>, k: nat, l: (string, string))
    requires k < |kids| && l in Leaves(kids[k])
    ensures l in AllLeaves(kids)
    decreases k
  {
    if k > 0 { LeavesOfKid(kids[1..], k - 1, l); }
  }

  /** Where no leaf has an angle bracket, no text of a genuine tree has one. */
  lemma {:induction false} GenuineTexts(red: ReduceMap, e: Entity)
    requires Genuine(red, e) && forall l :: l in Leaves(e) ==> NoAngle(l.1)
    ensures TextsOk(e)
    decreases e
  {
    hide NoAngle, AllLeaves;
    if e.embed == [] {
      assert (ToKey(e), e.text) in Leaves(e);
    } else {
      NoAngleNothing();
      forall k | 0 <= k < |e.embed| ensures TextsOk(e.embed[k]) {
        assert e.embed[k] in e.embed;
        forall l | l in Leaves(e.embed[k]) ensures NoAngle(l.1) {
          LeavesOfKid(e.embed, k, l);
        }
        GenuineTexts(red, e.embed[k]);
      }
    }
  }

  lemma NoAngleNothing()
    ensures NoAngle("")
  {
  }

  /** Every parse of words without angle brackets, if its root is written as a fact, is
      written as text that the reader takes for exactly one fact. */
  lemma ParseIsRead(red: ReduceMap, words: seq<Entity>, e: Entity)
    requires IsParseTree(red, words, e) && (forall l :: l in AllLeaves(words) ==> NoAngle(l.1))
    requires e.virt == []
    ensures var lines := Lines(Tokens('\0', ToXml(e, 0)));
            var content := Content("fact", RootNodes(e), "");
            && lines == RootLines(RootNodes(e))
            && ReadFacts(lines, 0, []) == Facts([ListNode("fact", content)])
            && ReadTree(lines, 3, "fact", []) == Done(content, |lines| - 1)
  {
    hide Genuine, Leaves, AllLeaves, NoAngle, TextsOk, ToKey, ToXml, Tokens, Lines, ReadFacts, ReadTree, Content,
         RootNodes, RootLines;
    GenuineTexts(red, e);
    FactTreeIsRead(e);
  }

  // ---- lines ------------------------------------------------------------------------------

  /** A tag at the top, and that of a clause anywhere, stands on lines of its own; right below, an
      element fills a line; deeper ones are on the line of the element around them. */
  lemma TagLines(e: Entity, level: nat, t: string)
    requires e.embed == [] && e.text == t && t != ""
    requires GrammarKey(e) != "d-linking" && GrammarKey(e) != "d-komma" && TagOf(GrammarKey(e)) != ""
    ensures var tag := TagOf(GrammarKey(e));
            var open, inner, close := "<" + tag + ">", "<text>" + t + "</text>", "</" + tag + ">";
            ToXml(e, level) ==
              if level == 0 || tag == "clause" then open + "\n" + inner + close + "\n"
              else if level == 1 then open + inner + close + "\n"
              else open + inner + close
  {
    hide TagOf, GrammarKey;
    var tag := TagOf(GrammarKey(e));
    var open, inner, close := "<" + tag + ">", "<text>" + t + "</text>", "</" + tag + ">";
    assert open + "" + inner + close == open + inner + close && open + inner + close + "" == open + inner + close;
    assert ToXml(e, level) == open + Open(LevelOf(tag, level)) + inner + "</" + tag + ">" + Close(LevelOf(tag, level));
  }
}
