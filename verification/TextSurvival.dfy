/** Which texts come back from their XML element: exactly those in normal form. Angle
    brackets in a text are taken for marks, or spread over lines that give other texts. */
module TextSurvival {
  import opened Text
  import opened XmlCodec

  function Element(t: string): string {
    "<text>" + t + "</text>"
  }

  function ElementLines(t: string): seq<string> {
    Lines(Tokens('\0', Element(t)))
  }

  /** Read back in an element of any tag, the text is there as it was, and nothing else. */
  ghost predicate Survives(t: string, tag: string) {
    var r := ReadTree(ElementLines(t), 0, tag, []);
    r.Done? && r.content == [ListNode("text", [TextNode(t)])]
  }

  // ---- texts without angle brackets ---------------------------------------------------

  lemma TagTokens(middle: string, lines: seq<string>)
    requires Tokens('>', middle + "<") == Unlines(lines)
    ensures Tokens('\0', Element(middle)) == Unlines(["", "<", "text"] + lines + [">", "text"])
  {
    hide Tokens, Unlines;
    NameText();
    var a, b := middle + "<", "/text>";
    assert Element(middle) == "<" + ("text>" + (a + b));
    TokensConcat('\0', "<", "text>" + (a + b));
    TokensConcat('<', "text>", a + b);
    TokensConcat('>', a, b);
    One('\0', '<');
    assert ['<'] == "<" && "text" + ">" == "text>" && "/" + "text" + ">" == "/text>";
    OpenTagTokens("text");
    CloseTagTokens("text");
    assert ["", "<", "text"] == [""] + ["<", "text"];
    BlankLine(["<", "text"]);
    UnlinesConcat(["", "<", "text"] + lines, [">", "text"]);
    UnlinesConcat(["", "<", "text"], lines);
  }

  lemma NameText()
    ensures NameOk("text")
  {
  }

  lemma PlainElementLines(t: string)
    requires NoAngle(t)
    ensures ElementLines(t) == ["", "<", "text"] + Flush(t) + [">", "text"]
  {
    hide Tokens, Lines, Flush, OneLine;
    FlushTokens(t);
    TagTokens(t, Flush(t));
    var lines := ["", "<", "text"] + Flush(t) + [">", "text"];
    FlushOneLine(t);
    NameText();
    NameOneLine("text");
    MarksOneLine();
    LinesOfUnlines(lines);
  }

  lemma FlushOneLine(t: string)
    requires NoAngle(t)
    ensures forall l :: l in Flush(t) ==> OneLine(l)
  {
    hide OneLine;
    SqueezedOneLine(t);
  }

  lemma PlainElementIsRead(t: string, tag: string)
    requires NoAngle(t)
    ensures var lines := ElementLines(t);
            ReadTree(lines, 0, tag, []) == Done(ListEntry("text", RunContent("text", t)), |lines|)
  {
    hide Tokens, Lines, Flush, At, ReadTree, ListEntry, RunContent, ElementLines;
    PlainElementLines(t);
    var lines, k := ElementLines(t), Flush(t);
    assert lines == [""] + (["<", "text"] + k + [">", "text"]);
    WholeAt(lines);
    AtSplit(lines, 0, [""], ["<", "text"] + k + [">", "text"]);
    AtSplit(lines, 1, ["<", "text"] + k, [">", "text"]);
    AtSplit(lines, 1, ["<", "text"], k);
    RunIsRead(lines, 3, "text", [], t);
    assert [] + RunContent("text", t) == RunContent("text", t);
    ElemIsRead(lines, 1, tag, [], "text", k, RunContent("text", t));
    assert [] + ListEntry("text", RunContent("text", t)) == ListEntry("text", RunContent("text", t));
    BlankThenEnd(lines, tag, ListEntry("text", RunContent("text", t)));
  }

  lemma WholeAt(lines: seq<string>)
    ensures At(lines, 0, lines)
  {
    assert lines[0..0 + |lines|] == lines;
  }

  lemma BlankThenEnd(lines: seq<string>, tag: string, content: seq<Xml>)
    requires lines != [] && lines[0] == ""
    requires ReadTree(lines, 1, tag, []) == ReadTree(lines, |lines|, tag, content)
    ensures ReadTree(lines, 0, tag, []) == Done(content, |lines|)
  {
    assert [] + TextLine(tag, "") == [];
  }

  lemma PlainSurvives(t: string, tag: string)
    requires NoAngle(t)
    ensures Survives(t, tag) <==> NormalText(t)
  {
    hide RunContent, NormalText, ElementLines, ReadTree;
    PlainElementIsRead(t, tag);
    TextSurvivesIffNormal(t);
    assert [Chars(t)][1..] == [] && "" + t == t;
    ContentChars("text", t, [], "");
    ContentNone("text", t);
    assert [Chars(t)] == [Chars(t)] + [];
  }

  // ---- what lines the tokenizer leaves ------------------------------------------------

  /** "<" with blanks and other characters after it. */
  predicate Opened(l: string) {
    |l| > 1 && l[0] == '<' && l[1] == ' ' && NoAngle(l[1..])
  }

  predicate LineShape(l: string) {
    NoAngle(l) || l == "<" || l == ">" || l == "<<" || l == "<>" || Opened(l)
  }

  /** The line being written when `prev` has been read. */
  predicate Pending(prev: char, p: string) {
    && OneLine(p)
    && (prev == '>' ==> p == "")
    && (if prev == '<' then p == "" || p == "<" else NoAngle(p) || Opened(p))
  }

  lemma PendingOne(prev: char, p: string, c: char)
    requires Pending(prev, p) && c != '\n' && c != '<' && c != '>'
    requires prev == '<' ==> c == ' '
    ensures OneLine(p + [c]) && (NoAngle(p + [c]) || Opened(p + [c]))
  {
    var q := p + [c];
    forall d | d in q ensures d != '\n' {
      assert d in p || d == c;
    }
    if p != "" && !NoAngle(p) {
      assert q[0] == p[0];
      if |p| > 1 { assert q[1..] == p[1..] + [c]; } else { assert q[1..] == [c]; }
    }
  }

  lemma {:induction false} LinesShape(prev: char, p: string, s: string)
    requires Pending(prev, p)
    ensures forall l :: l in Split(p + Tokens(prev, s), {'\n'}) ==> LineShape(l)
    decreases |s|, 0
  {
    hide NoAngle, Opened, OneLine, Split;
    if s == "" {
      assert p + Tokens(prev, s) == p;
      LastLine(prev, p);
    } else {
      var c, rest := s[0], Tokens(s[0], s[1..]);
      StepShape(prev, p, c, rest, s[1..]);
      assert p + Tokens(prev, s) == p + Token(prev, c) + rest;
    }
  }

  lemma LastLine(prev: char, p: string)
    requires Pending(prev, p)
    ensures Split(p, {'\n'}) == [p] && LineShape(p)
  {
    SplitWhole(p, {'\n'});
  }

  /** One character: it completes no line, or one, and leaves a line that is still pending. */
  lemma {:induction false} StepShape(prev: char, p: string, c: char, rest: string, s: string)
    requires Pending(prev, p) && rest == Tokens(c, s)
    ensures forall l :: l in Split(p + Token(prev, c) + rest, {'\n'}) ==> LineShape(l)
    decreases |s|, 1
  {
    hide Tokens, Split;
    EmptyPending(c);
    if IsSpace(c) {
      var w := Token(prev, c);
      if w == " " { PendingOne(prev, p, ' '); } else { assert p + w == p; }
      LinesShape(c, p + w, s);
    } else if c == '>' {
      OneMoreLine(p, "", rest);
      LastLine(prev, p);
      LinesShape(c, "", s);
      assert p + "\n" + rest == p + "\n" + ("" + rest);
    } else if prev == '<' && c == '/' {
      MarkLine(prev, p, '>');
      OneMoreLine(p + ">", "", rest);
      LinesShape(c, "", s);
      assert p + ">\n" + rest == (p + ">") + "\n" + ("" + rest);
    } else if prev == '<' {
      MarkLine(prev, p, '<');
      OneMoreLine(p + "<", [c], rest);
      OneChar(c);
      LinesShape(c, [c], s);
      assert p + ("<\n" + [c]) + rest == (p + "<") + "\n" + ([c] + rest);
    } else if c == '<' {
      if prev != '>' {
        OneMoreLine(p, "", rest);
        LastLine(prev, p);
        assert p + "\n" + rest == p + "\n" + ("" + rest);
      } else {
        assert p + "" + rest == "" + rest;
      }
      LinesShape(c, "", s);
    } else {
      PendingOne(prev, p, c);
      LinesShape(c, p + [c], s);
    }
  }

  lemma EmptyPending(c: char)
    ensures Pending(c, "")
  {
  }

  lemma OneChar(c: char)
    requires !IsSpace(c) && c != '>'
    ensures Pending(c, [c])
  {
  }

  lemma MarkLine(prev: char, p: string, mark: char)
    requires Pending(prev, p) && prev == '<' && (mark == '<' || mark == '>')
    ensures OneLine(p + [mark]) && LineShape(p + [mark])
  {
  }

  lemma OneMoreLine(line: string, p: string, rest: string)
    requires OneLine(line)
    ensures Split(line + "\n" + (p + rest), {'\n'}) == [line] + Split(p + rest, {'\n'})
  {
    SplitFirst(line, '\n', p + rest, {'\n'});
    assert "\n" == ['\n'];
  }

  lemma ElementShape(t: string)
    ensures forall l :: l in ElementLines(t) ==> LineShape(l)
  {
    hide LineShape, Split, Tokens;
    EmptyPending('\0');
    LinesShape('\0', "", Element(t));
    assert "" + Tokens('\0', Element(t)) == Tokens('\0', Element(t));
  }

  // ---- where texts come from ------------------------------------------------------------

  ghost predicate FromLine(lines: seq<string>, t: string) {
    t == "0" || t == "1" || exists l :: l in lines && l != "<" && l != ">" && t == Trim(l, TRIMMED)
  }

  /** All texts in the trees come from lines that are not marks. */
  ghost predicate AllFrom(lines: seq<string>, kids: seq<Xml>)
    decreases kids
  {
    forall k :: k in kids ==>
      match k
      case TextNode(t) => FromLine(lines, t)
      case ListNode(_, content) => AllFrom(lines, content)
  }

  lemma DigitsTrim()
    ensures Trim("0", TRIMMED) == "0" && Trim("1", TRIMMED) == "1"
  {
    TrimStays("0", TRIMMED);
    TrimStays("1", TRIMMED);
  }

  lemma LineGives(lines: seq<string>, tag: string, line: string)
    requires line in lines && line != "<" && line != ">"
    ensures AllFrom(lines, TextLine(tag, line))
  {
    hide Trim;
    DigitsTrim();
  }

  lemma AllFromBoth(lines: seq<string>, a: seq<Xml>, b: seq<Xml>)
    requires AllFrom(lines, a) && AllFrom(lines, b)
    ensures AllFrom(lines, a + b)
  {
  }

  lemma {:induction false} TreeFrom(lines: seq<string>, i: nat, tag: string, acc: seq<Xml>)
    requires AllFrom(lines, acc)
    ensures var r := ReadTree(lines, i, tag, acc); r.Done? ==> AllFrom(lines, r.content)
    decreases |lines| - i
  {
    hide AllFrom, TextLine, ListEntry;
    NothingFrom(lines);
    if i >= |lines| {
    } else if lines[i] == ">" {
      if i + 1 < |lines| && lines[i + 1] != tag { TreeFrom(lines, i + 2, tag, acc); }
    } else if lines[i] == "<" {
      if i + 1 < |lines| {
        TreeFrom(lines, i + 2, lines[i + 1], []);
        var sub := ReadTree(lines, i + 2, lines[i + 1], []);
        if sub.Done? {
          EntryFrom(lines, lines[i + 1], sub.content);
          AllFromBoth(lines, acc, ListEntry(lines[i + 1], sub.content));
          TreeFrom(lines, sub.next + 1, tag, acc + ListEntry(lines[i + 1], sub.content));
        }
      }
    } else {
      LineGives(lines, tag, lines[i]);
      AllFromBoth(lines, acc, TextLine(tag, lines[i]));
      TreeFrom(lines, i + 1, tag, acc + TextLine(tag, lines[i]));
    }
  }

  lemma NothingFrom(lines: seq<string>)
    ensures AllFrom(lines, [])
  {
  }

  lemma EntryFrom(lines: seq<string>, name: string, content: seq<Xml>)
    requires AllFrom(lines, content)
    ensures AllFrom(lines, ListEntry(name, content))
  {
  }

  lemma SurvivorFrom(t: string, tag: string)
    requires Survives(t, tag)
    ensures FromLine(ElementLines(t), t)
  {
    hide ReadTree, ElementLines, FromLine;
    var lines := ElementLines(t);
    NothingFrom(lines);
    TreeFrom(lines, 0, tag, []);
    TextFrom(lines, t);
  }

  lemma TextFrom(lines: seq<string>, t: string)
    requires AllFrom(lines, [ListNode("text", [TextNode(t)])])
    ensures FromLine(lines, t)
  {
    hide FromLine;
    assert ListNode("text", [TextNode(t)]) in [ListNode("text", [TextNode(t)])];
    assert TextNode(t) in [TextNode(t)];
  }

  // ---- texts with angle brackets ---------------------------------------------------------

  lemma PartNoAngle(l: string, a: nat, b: nat)
    requires NoAngle(l) && a <= b <= |l|
    ensures NoAngle(l[a..b])
  {
  }

  lemma TailNoAngle(l: string, a: nat, b: nat)
    requires 0 < a <= b <= |l| && NoAngle(l[1..])
    ensures NoAngle(l[a..b])
  {
    assert l[1..][a - 1..b - 1] == l[a..b];
  }

  /** Only these can be a line cut to a text and still have a bracket. */
  predicate BracketText(t: string) {
    t == "<<" || t == "<>" || t == "<" || Opened(t)
  }

  lemma TrimmedShape(l: string)
    requires LineShape(l) && l != ">" && !NoAngle(Trim(l, TRIMMED))
    ensures BracketText(Trim(l, TRIMMED))
  {
    hide Trim;
    var a, b := TrimInside(l);
    if NoAngle(l) {
      PartNoAngle(l, a, b);
    } else if Opened(l) {
      if a > 0 {
        TailNoAngle(l, a, b);
      } else if b >= 2 {
        PartNoAngle(l[1..], 0, b - 1);
        assert l[a..b][1..] == l[1..][0..b - 1];
      }
    } else {
      TrimSame(l);
    }
  }

  lemma TrimSame(l: string)
    requires l == "<<" || l == "<>" || l == "<"
    ensures Trim(l, TRIMMED) == l
  {
    TrimStays(l, TRIMMED);
  }

  lemma SurvivorShape(t: string, tag: string)
    requires Survives(t, tag) && !NoAngle(t)
    ensures BracketText(t)
  {
    hide Trim, ElementLines, LineShape, BracketText;
    SurvivorFrom(t, tag);
    ElementShape(t);
    var l :| l in ElementLines(t) && l != "<" && l != ">" && t == Trim(l, TRIMMED);
    TrimmedShape(l);
  }

  /** Where brackets are only on marks, no text has one. */
  lemma CleanLines(t: string, tag: string)
    requires !NoAngle(t)
    requires forall l :: l in ElementLines(t) ==> l == "<" || l == ">" || NoAngle(l)
    ensures !Survives(t, tag)
  {
    hide Trim, ElementLines, ReadTree;
    if Survives(t, tag) {
      SurvivorFrom(t, tag);
      var l :| l in ElementLines(t) && l != "<" && l != ">" && t == Trim(l, TRIMMED);
      var a, b := TrimInside(l);
      PartNoAngle(l, a, b);
    }
  }

  lemma TwoTokens(prev: char, a: char, b: char)
    ensures Tokens(prev, [a, b]) == Token(prev, a) + Token(a, b)
  {
    TokensConcat(prev, [a], [b]);
    One(prev, a);
    One(a, b);
    assert [a] + [b] == [a, b];
  }

  lemma EmptyMarkLost(tag: string)
    ensures !Survives("<>", tag)
  {
    hide Tokens, Lines, Survives, OneLine, Unlines;
    var lines := ["", "<", "text"] + [""] + [">", "text"];
    TokensConcat('>', "<>", "<");
    TwoTokens('>', '<', '>');
    One('>', '<');
    assert "<>" == ['<', '>'] && "<" == ['<'];
    OneLineUnlines("");
    TagTokens("<>", [""]);
    NameText();
    NameOneLine("text");
    MarksOneLine();
    LinesOfUnlines(lines);
    PlainLine("");
    PlainLine("text");
    CleanLines("<>", tag);
  }

  lemma PlainLine(l: string)
    requires l == "" || l == "text"
    ensures NoAngle(l)
  {
  }

  lemma OneLineUnlines(l: string)
    ensures Unlines([l]) == l + "\n"
  {
    assert [l][1..] == [] && Unlines([]) == "";
  }

  lemma OpenedLost(t: string, tag: string)
    requires Opened(t)
    ensures !Survives(t, tag)
  {
    hide Tokens, Lines, Survives, OneLine, Unlines, NoAngle;
    var u := t[1..];
    var line := Tokens('<', u);
    OpenedTokens(t);
    OneLineUnlines(line);
    TagTokens(t, [line]);
    var lines := ["", "<", "text"] + [line] + [">", "text"];
    NameText();
    NameOneLine("text");
    MarksOneLine();
    LinesOfUnlines(lines);
    PlainLine("");
    PlainLine("text");
    OpenedAngle(t);
    CleanLines(t, tag);
  }

  lemma OpenedAngle(t: string)
    requires Opened(t)
    ensures !NoAngle(t)
  {
  }

  lemma OpenedTokens(t: string)
    requires Opened(t)
    ensures var line := Tokens('<', t[1..]);
            Tokens('>', t + "<") == line + "\n" && NoAngle(line) && OneLine(line)
  {
    hide Tokens;
    var u := t[1..];
    TokensConcat('>', "<", u + "<");
    TokensConcat('<', u, "<");
    One('>', '<');
    One(LastOf('<', u), '<');
    assert t + "<" == "<" + (u + "<") && ['<'] == "<";
    assert LastOf('<', u) == u[|u| - 1] && u[|u| - 1] != '>' && u[|u| - 1] != '<';
    TokensConcat('<', " ", u[1..]);
    One('<', ' ');
    assert u == " " + u[1..] && [' '] == " ";
    SqueezeKeepsPlain(' ', u[1..]);
    var rest := Tokens(' ', u[1..]);
    assert Tokens('<', u) == " " + rest;
    forall c | c in " " + rest ensures c != '\n' {
      var i :| 0 <= i < |" " + rest| && (" " + rest)[i] == c;
    }
  }

  lemma DoubledTokens(t: string, marks: seq<string>)
    requires (t == "<" && marks == ["<"]) || (t == "<<" && marks == ["<", "<<"])
    ensures ElementLines(t) == ["", "<", "text"] + marks + ["<>", "text"]
  {
    hide Tokens, Lines, OneLine, Unlines;
    NameText();
    var body := t + "</";
    DoubledElement(t);
    TokensConcat('\0', "<", "text>" + (body + "text>"));
    TokensConcat('<', "text>", body + "text>");
    TokensConcat('>', body, "text>");
    One('\0', '<');
    assert ['<'] == "<" && "text" + ">" == "text>";
    OpenTagTokens("text");
    MarksTokens(t, marks);
    ClosingTokens();
    assert ["", "<", "text"] == [""] + ["<", "text"];
    BlankLine(["<", "text"]);
    var lines := ["", "<", "text"] + marks + ["<>", "text"];
    OneLineUnlines("text");
    UnlinesConcat(["", "<", "text"] + (marks + ["<>"]), ["text"]);
    UnlinesConcat(["", "<", "text"], marks + ["<>"]);
    assert lines == ["", "<", "text"] + (marks + ["<>"]) + ["text"];
    var x, y, z := Unlines(["<", "text"]), Unlines(marks + ["<>"]), "text\n";
    assert Tokens('\0', Element(t)) == "\n" + (x + (y + z));
    assert Unlines(lines) == (("\n" + x) + y) + z == "\n" + (x + (y + z));
    NameOneLine("text");
    MarksOneLine();
    DoubledOneLine();
    LinesOfUnlines(lines);
  }

  lemma DoubledElement(t: string)
    ensures Element(t) == "<" + ("text>" + ((t + "</") + "text>"))
  {
    assert "<text>" == "<" + "text>" && "</text>" == "</" + "text>";
  }

  lemma DoubledOneLine()
    ensures OneLine("<<") && OneLine("<>")
  {
  }

  lemma ClosingTokens()
    ensures Tokens('/', "text>") == "text\n"
  {
    PlainTokens('/', "text");
    TokensConcat('/', "text", ">");
    One('t', '>');
    assert "text" + ">" == "text>" && ['>'] == ">";
  }

  lemma MarksTokens(t: string, marks: seq<string>)
    requires (t == "<" && marks == ["<"]) || (t == "<<" && marks == ["<", "<<"])
    ensures Tokens('>', t + "</") == Unlines(marks + ["<>"]) && LastOf('>', t + "</") == '/'
  {
    hide Tokens, Unlines;
    TwoTokens('<', '<', '/');
    One('>', '<');
    One('<', '<');
    assert "</" == ['<', '/'] && "<" == ['<'];
    UnlinesConcat(marks, ["<>"]);
    OneLineUnlines("<>");
    if t == "<" {
      TokensConcat('>', "<", "</");
      OneLineUnlines("<");
    } else {
      assert t + "</" == "<" + ("<" + "</");
      TokensConcat('>', "<", "<" + "</");
      TokensConcat('<', "<", "</");
      UnlinesOfTwo("<", "<<");
    }
  }

  lemma SingleLost(tag: string)
    ensures !Survives("<", tag)
  {
    hide ElementLines, ReadTree, Trim, Survives;
    if Survives("<", tag) {
      DoubledTokens("<", ["<"]);
      SurvivorFrom("<", tag);
      var l :| l in ElementLines("<") && l != "<" && l != ">" && "<" == Trim(l, TRIMMED);
      TrimSame("<>");
      TextTrims();
    }
  }

  lemma TextTrims()
    ensures Trim("text", TRIMMED) == "text" && Trim("", TRIMMED) == ""
  {
    TrimStays("text", TRIMMED);
  }

  lemma DoubleLost(tag: string)
    ensures !Survives("<<", tag)
  {
    hide ElementLines, Trim, TextLine;
    DoubledTokens("<<", ["<", "<<"]);
    var lines := ElementLines("<<");
    assert lines == ["", "<", "text", "<", "<<", "<>", "text"];
    var c := [] + TextLine("<<", "<>") + TextLine("<<", "text");
    assert ReadTree(lines, 6, "<<", [] + TextLine("<<", "<>")) == ReadTree(lines, 7, "<<", c) == Done(c, 7);
    assert ReadTree(lines, 5, "<<", []) == Done(c, 7);
    var d := [] + ListEntry("<<", c);
    assert ReadTree(lines, 8, "text", d) == Done(d, 8);
    assert ReadTree(lines, 3, "text", []) == Done(d, 8);
    var e := [] + TextLine(tag, "") + ListEntry("text", d);
    assert ReadTree(lines, 1, tag, [] + TextLine(tag, "")) == ReadTree(lines, 9, tag, e) == Done(e, 9);
    assert ReadTree(lines, 0, tag, []) == Done(e, 9);
    NoTextAmong(tag, c, d, e);
  }

  lemma NoTextAmong(tag: string, c: seq<Xml>, d: seq<Xml>, e: seq<Xml>)
    requires d == [] + ListEntry("<<", c) && e == [] + TextLine(tag, "") + ListEntry("text", d)
    ensures e != [ListNode("text", [TextNode("<<")])]
  {
    assert d == ListEntry("<<", c) && e == ListEntry("text", d);
    assert d == [] || d[0] == ListNode("<<", c);
    assert [TextNode("<<")][0] == TextNode("<<");
  }

  /** For every text and wherever its element stands: it comes back exactly when it is in
      normal form. */
  lemma SurvivesIffNormal(t: string, tag: string)
    ensures Survives(t, tag) <==> NormalText(t)
  {
    hide Survives, NormalText, NoAngle, Opened;
    if NoAngle(t) {
      PlainSurvives(t, tag);
    } else {
      NormalNoAngle(t);
      if Survives(t, tag) {
        SurvivorShape(t, tag);
        if Opened(t) { OpenedLost(t, tag); }
        EmptyMarkLost(tag);
        SingleLost(tag);
        DoubleLost(tag);
      }
    }
  }

  lemma NormalNoAngle(t: string)
    ensures NormalText(t) ==> NoAngle(t)
  {
  }

  /** The texts that do not: defaults are lost, and truth values come back as 0 or 1. */
  lemma ValueIsRead(t: string, tag: string)
    requires NoAngle(t) && SingleSpaced(t)
    ensures var r := ReadTree(ElementLines(t), 0, tag, []);
            r.Done? && r.content ==
              if t == "" || t == "00000" || "0.50" <= t then []
              else [ListNode("text", [TextNode(if "0.0" <= t then "0" else if "1.0" <= t then "1" else t)])]
  {
    hide ElementLines, ReadTree, RunContent, SingleSpaced, NoAngle;
    PlainElementIsRead(t, tag);
    ReadValues(t);
    ReadIsContent(t);
  }
}
