/** The XML fact format: an indenting printer, a character-level tokenizer that leaves one
    tag mark, name or text on each line, and a recursive reader of those lines. */
module XmlCodec {
  import opened Text

  datatype Xml = TextNode(text: string) | ListNode(name: string, content: seq<Xml>)

  // ---- printing ----------------------------------------------------------------

  function Indent(level: nat): string
    decreases level
  {
    if level == 0 then "" else "  " + Indent(level - 1)
  }

  /** What is written only where the printer breaks lines. */
  function Broken(second: nat, s: string): string {
    if second == 0 then s else ""
  }

  function Level(name: string, level: nat): nat { if name == "clause" then level + 1 else level }
  function Second(name: string, second: nat): nat { if name == "clause" then 0 else second }

  function PrintXml(o: Xml, level: nat, second: nat): string
    decreases o
  {
    match o
    case TextNode(text) => text
    case ListNode(name, content) =>
      var l, s := Level(name, level), Second(name, second);
      "<" + name + ">" + Broken(s, "\n") + PrintKids(content, l, s) + Broken(s, Indent(l)) + "</" + name + ">"
  }

  function PrintKids(kids: seq<Xml>, level: nat, second: nat): string
    decreases kids
  {
    if kids == [] then ""
    else
      Broken(second, Indent(level + 1)) + PrintXml(kids[0], level, second + 1) + Broken(second, "\n") +
      PrintKids(kids[1..], level, second)
  }

  /** The public `print_xml`. */
  function PrintFact(o: Xml): string {
    PrintXml(o, 0, 0) + "\n"
  }

  function PrintFacts(facts: seq<Xml>): string {
    if facts == [] then "" else PrintFact(facts[0]) + PrintFacts(facts[1..])
  }

  // ---- tokenizing ----------------------------------------------------------------

  predicate IsSpace(c: char) {
    c == '\n' || c == '\r' || c == '\t' || c == ' '
  }

  /** What the tokenizer writes for `c` when `prev` came before it. */
  function Token(prev: char, c: char): string {
    if IsSpace(c) then (if !IsSpace(prev) && prev != '>' then " " else "")
    else if c == '>' then "\n"
    else if prev == '<' then (if c == '/' then ">\n" else "<\n" + [c])
    else if c == '<' then (if prev != '>' then "\n" else "")
    else [c]
  }

  function Tokens(prev: char, s: string): string
    decreases |s|
  {
    if s == "" then "" else Token(prev, s[0]) + Tokens(s[0], s[1..])
  }

  method OrderTags(indata: string, predata: string) returns (result: string)
    ensures result == predata + Tokens('\0', indata)
  {
    result := predata;
    var num, before := '\0', '\0';
    var isSpace := false;
    var k := 0;
    while k < |indata|
      invariant 0 <= k <= |indata|
      invariant isSpace == IsSpace(num)
      invariant result + Tokens(num, indata[k..]) == predata + Tokens('\0', indata)
    {
      before := num;
      num := indata[k];
      ghost var written := result;
      if num == '\n' || num == '\r' || num == '\t' || num == ' ' {
        if !isSpace && before != '>' {
          result := result + " ";
        }
        isSpace := true;
      } else {
        isSpace := false;
        if num == '>' {
          result := result + "\n";
        } else if before == '<' {
          if num == '/' {
            result := result + ">\n";
          } else {
            result := result + "<\n";
            result := result + [num];
          }
        } else if num == '<' {
          if before != '>' {
            result := result + "\n";
          }
        } else {
          result := result + [num];
        }
      }
      TokenWritten(indata, k, before, written, result);
      k := k + 1;
    }
    assert indata[k..] == "" && result + "" == result;
  }

  lemma TokenWritten(indata: string, k: nat, before: char, written: string, result: string)
    requires k < |indata| && result == written + Token(before, indata[k])
    ensures result + Tokens(indata[k], indata[k + 1..]) == written + Tokens(before, indata[k..])
  {
    assert indata[k..][0] == indata[k] && indata[k..][1..] == indata[k + 1..];
  }

  /** `split_lines`: `getline` does not count the empty rest after a final newline. */
  function Lines(s: string): seq<string> {
    var pieces := Split(s, {'\n'});
    if pieces[|pieces| - 1] == "" then pieces[..|pieces| - 1] else pieces
  }

  // ---- reading -------------------------------------------------------------------

  const TRIMMED: set<char> := {' ', '\t', '\n', '\r', 12 as char, 11 as char}

  /** Running past the last line, which the original does not guard, is kept apart. */
  datatype ReadResult = Done(content: seq<Xml>, next: nat) | OutOfRange

  /** What a non-empty text line adds under `tag`. */
  function TextLine(tag: string, line: string): seq<Xml> {
    if line == "" || line == "00000" || StartsWith(line, "0.50") then []
    else
      var value := if StartsWith(line, "0.0") then "0" else if StartsWith(line, "1.0") then "1" else line;
      var t := TextNode(Trim(value, TRIMMED));
      if tag == "text" then [t] else [ListNode("text", [t])]
  }

  function ListEntry(name: string, content: seq<Xml>): seq<Xml> {
    if content == [] then [] else [ListNode(name, content)]
  }

  /** `halxml_readtree` from line `i` on, with `acc` read so far; `next` is the line it
      stops at, the name in the closing tag. */
  function ReadTree(lines: seq<string>, i: nat, tag: string, acc: seq<Xml>): (r: ReadResult)
    ensures r.Done? ==> r.next >= i
    decreases |lines| - i
  {
    if i >= |lines| then Done(acc, i)
    else if lines[i] == ">" then
      if i + 1 >= |lines| then OutOfRange
      else if lines[i + 1] == tag then Done(acc, i + 1)
      else ReadTree(lines, i + 2, tag, acc)
    else if lines[i] == "<" then
      if i + 1 >= |lines| then OutOfRange
      else
        match ReadTree(lines, i + 2, lines[i + 1], [])
        case OutOfRange => OutOfRange
        case Done(content, next) => ReadTree(lines, next + 1, tag, acc + ListEntry(lines[i + 1], content))
    else ReadTree(lines, i + 1, tag, acc + TextLine(tag, lines[i]))
  }

  method ReadTreeLoop(tag: string, lines: seq<string>, start: nat) returns (content: seq<Xml>, i: nat, ok: bool)
    ensures ReadTree(lines, start, tag, []) == if ok then Done(content, i) else OutOfRange
    decreases |lines| - start
  {
    content, i, ok := [], start, true;
    while i < |lines|
      invariant start <= i
      invariant ReadTree(lines, i, tag, content) == ReadTree(lines, start, tag, [])
      decreases |lines| - i
    {
      if lines[i] == ">" {
        i := i + 1;
        if i >= |lines| { return content, i, false; }
        if lines[i] == tag { return; }
      } else if lines[i] == "<" {
        i := i + 1;
        if i >= |lines| { return content, i, false; }
        var name := lines[i];
        i := i + 1;
        var sub, next, subOk := ReadTreeLoop(name, lines, i);
        if !subOk { return content, next, false; }
        if |sub| > 0 { content := content + [ListNode(name, sub)]; } else { assert content + [] == content; }
        i := next;
      } else if |lines[i]| > 0 {
        var text := lines[i];
        if text != "00000" && !StartsWith(text, "0.50") {
          var t := TextNode(Trim(if StartsWith(text, "0.0") then "0" else if StartsWith(text, "1.0") then "1" else text,
                                 TRIMMED));
          if tag == "text" {
            content := content + [t];
          } else {
            content := content + [ListNode("text", [t])];
          }
        } else {
          assert content + [] == content;
        }
      } else {
        assert content + [] == content;
      }
      i := i + 1;
    }
  }

  datatype FactsResult = Facts(facts: seq<Xml>) | FactsOutOfRange

  /** `halxml_readfacts`: every "fact" element, wherever it starts. */
  function ReadFacts(lines: seq<string>, i: nat, acc: seq<Xml>): FactsResult
    decreases |lines| - i
  {
    if i >= |lines| then Facts(acc)
    else if lines[i] != "<" then ReadFacts(lines, i + 1, acc)
    else if i + 1 >= |lines| then FactsOutOfRange
    else if lines[i + 1] != "fact" then ReadFacts(lines, i + 2, acc)
    else
      match ReadTree(lines, i + 2, "fact", [])
      case OutOfRange => FactsOutOfRange
      case Done(content, next) => ReadFacts(lines, next + 1, acc + [ListNode("fact", content)])
  }

  method ReadFactsLoop(prestr: string) returns (facts: seq<Xml>, ok: bool)
    ensures ReadFacts(Lines(prestr), 0, []) == if ok then Facts(facts) else FactsOutOfRange
  {
    var lines := Lines(prestr);
    facts, ok := [], true;
    var i := 0;
    while i < |lines|
      invariant 0 <= i
      invariant ReadFacts(lines, i, facts) == ReadFacts(lines, 0, [])
    {
      if lines[i] == "<" {
        i := i + 1;
        if i >= |lines| { return facts, false; }
        if lines[i] == "fact" {
          i := i + 1;
          var content, next, done := ReadTreeLoop("fact", lines, i);
          if !done { return facts, false; }
          facts := facts + [ListNode("fact", content)];
          i := next;
        }
      }
      i := i + 1;
    }
  }

  // ---- layouts: elements and character runs --------------------------------------

  /** A document as elements with characters between them, however they are spread out. */
  datatype Node = Elem(name: string, kids: seq<Node>) | Chars(chars: string)

  function Render(nodes: seq<Node>): string {
    if nodes == [] then ""
    else
      (match nodes[0]
       case Chars(s) => s
       case Elem(name, kids) => "<" + name + ">" + Render(kids) + "</" + name + ">") + Render(nodes[1..])
  }

  predicate NoAngle(s: string) {
    forall i :: 0 <= i < |s| ==> s[i] != '<' && s[i] != '>'
  }

  /** A tag name the tokenizer leaves alone. */
  predicate NameOk(name: string) {
    name != "" && name[0] != '/' && NoAngle(name) && forall i :: 0 <= i < |name| ==> !IsSpace(name[i])
  }

  predicate NodesOk(nodes: seq<Node>) {
    nodes == [] ||
    ((match nodes[0] case Chars(s) => NoAngle(s) case Elem(name, kids) => NameOk(name) && NodesOk(kids)) &&
     NodesOk(nodes[1..]))
  }

  /** A character run as the tokenizer writes it after a tag. */
  function Squeeze(run: string): string {
    Tokens('>', run)
  }

  function Flush(run: string): seq<string> {
    if run == "" then [] else [Squeeze(run)]
  }

  /** The lines of a layout, after the characters `run`. */
  function LinesOf(nodes: seq<Node>, run: string): seq<string> {
    if nodes == [] then Flush(run)
    else
      match nodes[0]
      case Chars(s) => LinesOf(nodes[1..], run + s)
      case Elem(name, kids) =>
        Flush(run) + ["<", name] + LinesOf(kids, "") + [">", name] + LinesOf(nodes[1..], "")
  }

  function Unlines(lines: seq<string>): string {
    if lines == [] then "" else lines[0] + "\n" + Unlines(lines[1..])
  }

  lemma {:induction false} UnlinesConcat(a: seq<string>, b: seq<string>)
    ensures Unlines(a + b) == Unlines(a) + Unlines(b)
    decreases |a|
  {
    if a == [] {
      assert a + b == b;
    } else {
      UnlinesConcat(a[1..], b);
      assert (a + b)[1..] == a[1..] + b && (a + b)[0] == a[0];
    }
  }

  function LastOf(prev: char, s: string): char {
    if s == "" then prev else s[|s| - 1]
  }

  lemma {:induction false} TokensConcat(prev: char, a: string, b: string)
    ensures Tokens(prev, a + b) == Tokens(prev, a) + Tokens(LastOf(prev, a), b)
    decreases |a|
  {
    hide Token;
    if a == "" {
      assert a + b == b;
    } else {
      TokensConcat(a[0], a[1..], b);
      var s, t := Tokens(a[0], a[1..]), Tokens(LastOf(prev, a), b);
      assert (a + b)[1..] == a[1..] + b && (a + b)[0] == a[0];
      assert LastOf(a[0], a[1..]) == LastOf(prev, a);
      assert Tokens(prev, a + b) == Token(prev, a[0]) + (s + t) == (Token(prev, a[0]) + s) + t;
    }
  }

  predicate Plain(s: string) {
    NoAngle(s) && forall i :: 0 <= i < |s| ==> !IsSpace(s[i])
  }

  lemma {:induction false} PlainTokens(prev: char, s: string)
    requires Plain(s) && prev != '<'
    ensures Tokens(prev, s) == s
    decreases |s|
  {
    if s != "" {
      PlainTokens(s[0], s[1..]);
      assert s == [s[0]] + s[1..];
    }
  }

  lemma One(prev: char, c: char)
    ensures Tokens(prev, [c]) == Token(prev, c)
  {
    assert [c][1..] == "" && Tokens(c, "") == "";
    assert Token(prev, c) + "" == Token(prev, c);
  }

  lemma OpenTagTokens(name: string)
    requires NameOk(name)
    ensures Tokens('<', name + ">") == Unlines(["<", name])
  {
    hide Unlines, Tokens, NameOk;
    NameTokens(name);
    TokensConcat('<', name, ">");
    One(LastOf('<', name), '>');
    assert ">" == ['>'];
    UnlinesOfTwo("<", name);
  }

  lemma NameTokens(name: string)
    requires NameOk(name)
    ensures Tokens('<', name) == "<\n" + name
  {
    var rest := name[1..];
    assert name == [name[0]] + rest;
    PlainTokens(name[0], rest);
  }

  lemma CloseTagTokens(name: string)
    requires NameOk(name)
    ensures Tokens('<', "/" + name + ">") == Unlines([">", name])
  {
    hide Tokens, Unlines;
    TokensConcat('<', "/" + name, ">");
    TokensConcat('<', "/", name);
    assert LastOf('<', "/") == '/' && "/" == ['/'] && ">" == ['>'];
    One('<', '/');
    PlainTokens('/', name);
    One(LastOf('<', "/" + name), '>');
    UnlinesOfTwo(">", name);
  }

  lemma UnlinesOfTwo(a: string, b: string)
    ensures Unlines([a, b]) == a + "\n" + b + "\n"
  {
    assert [a, b][1..] == [b] && [b][1..] == [] && Unlines([b]) == b + "\n" + "";
  }

  lemma FlushTokens(run: string)
    requires NoAngle(run)
    ensures Tokens('>', run + "<") == Unlines(Flush(run))
  {
    TokensConcat('>', run, "<");
    One(LastOf('>', run), '<');
    if run != "" {
      assert [Squeeze(run)][1..] == [];
      assert Unlines([Squeeze(run)]) == Squeeze(run) + "\n" + "";
    }
  }

  /** Up to the next "<", a layout tokenizes to its lines. */
  lemma {:induction false} RenderTokens(nodes: seq<Node>, run: string)
    requires NodesOk(nodes) && NoAngle(run)
    ensures Tokens('>', run + Render(nodes) + "<") == Unlines(LinesOf(nodes, run))
  {
    if nodes == [] {
      assert run + Render(nodes) == run;
      FlushTokens(run);
    } else if nodes[0].Chars? {
      RenderTokens(nodes[1..], run + nodes[0].chars);
      assert run + Render(nodes) == (run + nodes[0].chars) + Render(nodes[1..]);
    } else {
      var name, kids, rest := nodes[0].name, nodes[0].kids, nodes[1..];
      RenderTokens(kids, "");
      RenderTokens(rest, "");
      ElemTokens(run, name, Render(kids), Render(rest), LinesOf(kids, ""), LinesOf(rest, ""));
      assert run + Render(nodes) + "<" ==
        run + ("<" + name + ">" + Render(kids) + "</" + name + ">" + Render(rest)) + "<";
    }
  }

  lemma ElemTokens(run: string, name: string, kids: string, rest: string, kidLines: seq<string>, restLines: seq<string>)
    requires NoAngle(run) && NameOk(name)
    requires Tokens('>', "" + kids + "<") == Unlines(kidLines)
    requires Tokens('>', "" + rest + "<") == Unlines(restLines)
    ensures Tokens('>', run + ("<" + name + ">" + kids + "</" + name + ">" + rest) + "<") ==
      Unlines(Flush(run) + ["<", name] + kidLines + [">", name] + restLines)
  {
    hide Tokens, Unlines, Flush, NameOk, NoAngle;
    var a, b, c, d, e := run + "<", name + ">", kids + "<", "/" + name + ">", rest + "<";
    assert "" + kids == kids && "" + rest == rest;
    assert run + ("<" + name + ">" + kids + "</" + name + ">" + rest) + "<" == a + (b + (c + (d + e)));
    TokensConcat('>', a, b + (c + (d + e)));
    TokensConcat('<', b, c + (d + e));
    TokensConcat('>', c, d + e);
    TokensConcat('<', d, e);
    FlushTokens(run);
    OpenTagTokens(name);
    CloseTagTokens(name);
    UnlinesConcat(Flush(run) + ["<", name] + kidLines + [">", name], restLines);
    UnlinesConcat(Flush(run) + ["<", name] + kidLines, [">", name]);
    UnlinesConcat(Flush(run) + ["<", name], kidLines);
    UnlinesConcat(Flush(run), ["<", name]);
  }

  // ---- what the reader makes of a layout ---------------------------------------------

  function RunContent(tag: string, run: string): seq<Xml> {
    if run == "" then [] else TextLine(tag, Squeeze(run))
  }

  /** The content read from a layout, after the characters `run`. */
  function Content(tag: string, nodes: seq<Node>, run: string): seq<Xml>
    decreases nodes
  {
    if nodes == [] then RunContent(tag, run)
    else
      match nodes[0]
      case Chars(s) => Content(tag, nodes[1..], run + s)
      case Elem(name, kids) =>
        RunContent(tag, run) + ListEntry(name, Content(name, kids, "")) + Content(tag, nodes[1..], "")
  }

  /** `part` stands at index `i` of `lines`. */
  ghost predicate At(lines: seq<string>, i: nat, part: seq<string>) {
    i + |part| <= |lines| && lines[i..i + |part|] == part
  }

  lemma AtSplit(lines: seq<string>, i: nat, a: seq<string>, b: seq<string>)
    requires At(lines, i, a + b)
    ensures At(lines, i, a) && At(lines, i + |a|, b)
  {
    var part := lines[i..i + |a + b|];
    assert lines[i..i + |a|] == part[..|a|];
    assert lines[i + |a|..i + |a| + |b|] == part[|a|..];
  }

  lemma AtHead(lines: seq<string>, i: nat, a: string, rest: seq<string>)
    requires At(lines, i, [a] + rest)
    ensures lines[i] == a
  {
    assert lines[i..i + |[a] + rest|][0] == lines[i];
  }

  lemma {:induction false} SqueezeKeepsPlain(prev: char, run: string)
    requires NoAngle(run) && prev != '<'
    ensures var t := Tokens(prev, run); NoAngle(t) && forall i :: 0 <= i < |t| ==> t[i] == ' ' || !IsSpace(t[i])
    decreases |run|
  {
    if run != "" { SqueezeKeepsPlain(run[0], run[1..]); }
  }

  lemma RunIsRead(lines: seq<string>, i: nat, tag: string, acc: seq<Xml>, run: string)
    requires NoAngle(run) && At(lines, i, Flush(run))
    ensures ReadTree(lines, i, tag, acc) == ReadTree(lines, i + |Flush(run)|, tag, acc + RunContent(tag, run))
  {
    if run == "" {
      assert acc + RunContent(tag, run) == acc;
    } else {
      SqueezeKeepsPlain('>', run);
      AtHead(lines, i, Squeeze(run), []);
    }
  }

  lemma ElemIsRead(lines: seq<string>, i: nat, tag: string, acc: seq<Xml>, name: string,
                   kidLines: seq<string>, content: seq<Xml>)
    requires At(lines, i, ["<", name] + kidLines + [">", name])
    requires ReadTree(lines, i + 2, name, []) == ReadTree(lines, i + 2 + |kidLines|, name, content)
    ensures ReadTree(lines, i, tag, acc) == ReadTree(lines, i + |kidLines| + 4, tag, acc + ListEntry(name, content))
  {
    AtSplit(lines, i, ["<", name] + kidLines, [">", name]);
    AtSplit(lines, i, ["<", name], kidLines);
    AtPair(lines, i, "<", name);
    AtPair(lines, i + 2 + |kidLines|, ">", name);
  }

  lemma AtPair(lines: seq<string>, i: nat, a: string, b: string)
    requires At(lines, i, [a, b])
    ensures i + 1 < |lines| && lines[i] == a && lines[i + 1] == b
  {
    assert lines[i..i + 2][0] == lines[i] && lines[i..i + 2][1] == lines[i + 1];
  }

  lemma JoinedNoAngle(a: string, b: string)
    ensures NoAngle(a) && NoAngle(b) ==> NoAngle(a + b)
    ensures NoAngle("")
  {
  }

  lemma LayoutCases(tag: string, nodes: seq<Node>, run: string)
    ensures nodes == [] ==> LinesOf(nodes, run) == Flush(run) && Content(tag, nodes, run) == RunContent(tag, run)
    ensures nodes != [] && nodes[0].Chars? ==>
              LinesOf(nodes, run) == LinesOf(nodes[1..], run + nodes[0].chars) &&
              Content(tag, nodes, run) == Content(tag, nodes[1..], run + nodes[0].chars)
    ensures nodes != [] && nodes[0].Elem? ==>
              var name, kids := nodes[0].name, nodes[0].kids;
              LinesOf(nodes, run) ==
                Flush(run) + ["<", name] + LinesOf(kids, "") + [">", name] + LinesOf(nodes[1..], "") &&
              Content(tag, nodes, run) ==
                RunContent(tag, run) + ListEntry(name, Content(name, kids, "")) + Content(tag, nodes[1..], "")
  {
  }

  /** The reader consumes exactly the lines of a layout and adds its content. */
  lemma {:induction false} LayoutIsRead(lines: seq<string>, i: nat, tag: string, acc: seq<Xml>,
                                        nodes: seq<Node>, run: string)
    requires NodesOk(nodes) && NoAngle(run) && At(lines, i, LinesOf(nodes, run))
    ensures ReadTree(lines, i, tag, acc) ==
      ReadTree(lines, i + |LinesOf(nodes, run)|, tag, acc + Content(tag, nodes, run))
    decreases nodes
  {
    hide ReadTree, At, Flush, LinesOf, Content, RunContent, ListEntry, NameOk, NoAngle;
    LayoutCases(tag, nodes, run);
    if nodes == [] {
      RunIsRead(lines, i, tag, acc, run);
    } else if nodes[0].Chars? {
      JoinedNoAngle(run, nodes[0].chars);
      LayoutIsRead(lines, i, tag, acc, nodes[1..], run + nodes[0].chars);
    } else {
      var name, kids, rest := nodes[0].name, nodes[0].kids, nodes[1..];
      JoinedNoAngle("", "");
      var f, k, r := Flush(run), LinesOf(kids, ""), LinesOf(rest, "");
      assert f + ["<", name] + k + [">", name] + r == f + ((["<", name] + k + [">", name]) + r);
      AtSplit(lines, i, f, (["<", name] + k + [">", name]) + r);
      AtSplit(lines, i + |f|, ["<", name] + k + [">", name], r);
      AtSplit(lines, i + |f|, ["<", name] + k, [">", name]);
      AtSplit(lines, i + |f|, ["<", name], k);
      RunIsRead(lines, i, tag, acc, run);
      LayoutIsRead(lines, i + |f| + 2, name, [], kids, "");
      assert [] + Content(name, kids, "") == Content(name, kids, "");
      var acc' := acc + RunContent(tag, run);
      ElemIsRead(lines, i + |f|, tag, acc', name, k, Content(name, kids, ""));
      var acc'' := acc' + ListEntry(name, Content(name, kids, ""));
      LayoutIsRead(lines, i + |f| + |k| + 4, tag, acc'', rest, "");
      assert acc'' + Content(tag, rest, "") ==
        acc + (RunContent(tag, run) + ListEntry(name, Content(name, kids, "")) + Content(tag, rest, ""));
    }
  }

  // ---- the printer's layout ------------------------------------------------------------

  function LayoutOf(o: Xml, level: nat, second: nat): Node
    decreases o
  {
    match o
    case TextNode(text) => Chars(text)
    case ListNode(name, content) =>
      var l, s := Level(name, level), Second(name, second);
      Elem(name, [Chars(Broken(s, "\n"))] + LayoutOfKids(content, l, s) + [Chars(Broken(s, Indent(l)))])
  }

  function LayoutOfKids(kids: seq<Xml>, level: nat, second: nat): seq<Node>
    decreases kids
  {
    if kids == [] then []
    else
      [Chars(Broken(second, Indent(level + 1))), LayoutOf(kids[0], level, second + 1), Chars(Broken(second, "\n"))] +
      LayoutOfKids(kids[1..], level, second)
  }

  lemma {:induction false} RenderConcat(a: seq<Node>, b: seq<Node>)
    ensures Render(a + b) == Render(a) + Render(b)
    decreases |a|
  {
    if a == [] {
      assert a + b == b;
    } else {
      RenderConcat(a[1..], b);
      assert (a + b)[1..] == a[1..] + b && (a + b)[0] == a[0];
    }
  }

  lemma RenderOne(node: Node)
    ensures node.Chars? ==> Render([node]) == node.chars
    ensures node.Elem? ==> Render([node]) == "<" + node.name + ">" + Render(node.kids) + "</" + node.name + ">"
  {
    assert [node][1..] == [];
    assert Render([]) == "";
  }

  /** The printer writes its layout. */
  lemma {:induction false} PrintIsRender(o: Xml, level: nat, second: nat)
    ensures Render([LayoutOf(o, level, second)]) == PrintXml(o, level, second)
    decreases o
  {
    RenderOne(LayoutOf(o, level, second));
    if o.ListNode? {
      var l, s := Level(o.name, level), Second(o.name, second);
      var a, b, c := [Chars(Broken(s, "\n"))], LayoutOfKids(o.content, l, s), [Chars(Broken(s, Indent(l)))];
      PrintKidsIsRender(o.content, l, s);
      RenderConcat(a + b, c);
      RenderConcat(a, b);
      RenderOne(a[0]);
      RenderOne(c[0]);
    }
  }

  lemma {:induction false} PrintKidsIsRender(kids: seq<Xml>, level: nat, second: nat)
    ensures Render(LayoutOfKids(kids, level, second)) == PrintKids(kids, level, second)
    decreases kids
  {
    hide Indent, Broken;
    if kids != [] {
      var a, b, c := Chars(Broken(second, Indent(level + 1))), LayoutOf(kids[0], level, second + 1),
                     Chars(Broken(second, "\n"));
      var rest := LayoutOfKids(kids[1..], level, second);
      PrintIsRender(kids[0], level, second + 1);
      PrintKidsIsRender(kids[1..], level, second);
      RenderConcat([a, b, c], rest);
      assert [a, b, c] == [a] + ([b] + [c]);
      RenderConcat([a], [b] + [c]);
      RenderConcat([b], [c]);
      RenderOne(a);
      RenderOne(c);
    }
  }

  // ---- normal form -----------------------------------------------------------------------

  predicate AllSpaces(s: string) {
    forall i :: 0 <= i < |s| ==> IsSpace(s[i])
  }

  predicate NoDoubleBlank(t: string) {
    |t| < 2 || (!(t[0] == ' ' && t[1] == ' ') && NoDoubleBlank(t[1..]))
  }

  /** Only single blanks inside, nothing to trim. */
  predicate SingleSpaced(t: string) {
    && (forall i :: 0 <= i < |t| ==> t[i] == ' ' || !IsSpace(t[i]))
    && NoDoubleBlank(t)
    && (t != "" ==> t[0] !in TRIMMED && t[|t| - 1] !in TRIMMED)
  }

  /** No value the reader drops or rewrites. */
  predicate NotDefault(t: string) {
    t != "00000" && !StartsWith(t, "0.50") && !StartsWith(t, "0.0") && !StartsWith(t, "1.0")
  }

  predicate NormalText(t: string) {
    t != "" && NoAngle(t) && SingleSpaced(t) && NotDefault(t)
  }

  /** Texts only under "text" and never next to each other; lists non-empty, with clean
      tag names. */
  predicate NormalKids(tag: string, kids: seq<Xml>)
    decreases kids
  {
    kids == [] ||
    ((match kids[0]
      case TextNode(t) => tag == "text" && NormalText(t) && (|kids| > 1 ==> kids[1].ListNode?)
      case ListNode(name, content) => NameOk(name) && content != [] && NormalKids(name, content)) &&
     NormalKids(tag, kids[1..]))
  }

  /** A fact in normal form; it alone may be empty. */
  predicate NormalFact(o: Xml) {
    o.ListNode? && o.name == "fact" && NormalKids("fact", o.content)
  }

  lemma {:induction false} IndentSpaces(level: nat)
    ensures AllSpaces(Indent(level))
  {
    if level > 0 { IndentSpaces(level - 1); }
  }

  lemma BrokenSpaces(level: nat, second: nat)
    ensures AllSpaces(Broken(second, "\n")) && AllSpaces(Broken(second, Indent(level)))
    ensures NoAngle(Broken(second, "\n")) && NoAngle(Broken(second, Indent(level)))
  {
    IndentSpaces(level);
  }

  lemma {:induction false} LayoutOk(tag: string, kids: seq<Xml>, level: nat, second: nat)
    requires NormalKids(tag, kids)
    ensures NodesOk(LayoutOfKids(kids, level, second))
    decreases kids
  {
    if kids != [] {
      LayoutOk(tag, kids[1..], level, second);
      BrokenSpaces(level + 1, second);
      var nodes := LayoutOfKids(kids, level, second);
      assert nodes[1..][1..][1..] == LayoutOfKids(kids[1..], level, second);
      if kids[0].ListNode? { ElemLayoutOk(kids[0], level, second + 1); }
    }
  }

  lemma {:induction false} ElemLayoutOk(o: Xml, level: nat, second: nat)
    requires o.ListNode? && NameOk(o.name) && NormalKids(o.name, o.content)
    ensures LayoutOf(o, level, second).Elem? && NameOk(LayoutOf(o, level, second).name)
    ensures NodesOk(LayoutOf(o, level, second).kids)
    decreases o, 0
  {
    var l, s := Level(o.name, level), Second(o.name, second);
    LayoutOk(o.name, o.content, l, s);
    BrokenSpaces(l, s);
    var inner := LayoutOfKids(o.content, l, s);
    SurroundOk(inner, Broken(s, "\n"), Broken(s, Indent(l)));
  }

  lemma SurroundOk(inner: seq<Node>, a: string, b: string)
    requires NodesOk(inner) && NoAngle(a) && NoAngle(b)
    ensures NodesOk([Chars(a)] + inner + [Chars(b)])
  {
    AppendOk(inner, b);
    var nodes := [Chars(a)] + inner + [Chars(b)];
    assert nodes[1..] == inner + [Chars(b)];
  }

  lemma {:induction false} AppendOk(nodes: seq<Node>, b: string)
    requires NodesOk(nodes) && NoAngle(b)
    ensures NodesOk(nodes + [Chars(b)])
    decreases |nodes|
  {
    if nodes == [] {
      assert [Chars(b)][1..] == [];
    } else {
      AppendOk(nodes[1..], b);
      assert (nodes + [Chars(b)])[1..] == nodes[1..] + [Chars(b)];
    }
  }

  // ---- texts ----------------------------------------------------------------------------

  lemma {:induction false} SpacesVanish(prev: char, w: string)
    requires AllSpaces(w) && (prev == '>' || IsSpace(prev))
    ensures Tokens(prev, w) == ""
    decreases |w|
  {
    if w != "" { SpacesVanish(w[0], w[1..]); }
  }

  lemma {:induction false} SingleSpacedStays(prev: char, t: string)
    requires NoAngle(t) && prev != '<' && (forall i :: 0 <= i < |t| ==> t[i] == ' ' || !IsSpace(t[i]))
    requires NoDoubleBlank(t)
    requires t != "" && t[0] == ' ' ==> !IsSpace(prev) && prev != '>'
    ensures Tokens(prev, t) == t
    decreases |t|
  {
    if t != "" {
      SingleSpacedStays(t[0], t[1..]);
      assert t == [t[0]] + t[1..];
    }
  }

  lemma TrimStays(t: string, cs: set<char>)
    requires t != "" && t[0] !in cs && t[|t| - 1] !in cs
    ensures TrimLeft(t, cs) == t && TrimRight(t, cs) == t
  {
  }

  lemma TrimNormal(t: string, w: string)
    requires t != "" && t[0] !in TRIMMED && t[|t| - 1] !in TRIMMED && (w == "" || w == " ")
    ensures Trim(t + w, TRIMMED) == t
  {
    TrimStays(t, TRIMMED);
    var u := t + w;
    assert u[0] == t[0];
    assert TrimLeft(u, TRIMMED) == u;
    if w == " " {
      assert u[..|u| - 1] == t && u[|u| - 1] == ' ';
      assert TrimRight(u, TRIMMED) == TrimRight(t, TRIMMED);
    } else {
      assert u == t;
    }
  }

  lemma TokensAfterText(prev: char, w: string)
    requires AllSpaces(w) && !IsSpace(prev) && prev != '>'
    ensures Tokens(prev, w) == if w == "" then "" else " "
  {
    if w != "" { SpacesVanish(w[0], w[1..]); }
  }

  /** A normal text is squeezed to itself, with one blank when white space follows. */
  lemma SqueezeText(w1: string, t: string, w2: string)
    requires AllSpaces(w1) && AllSpaces(w2) && NormalText(t)
    ensures Squeeze(w1 + t + w2) == t + (if w2 == "" then "" else " ")
  {
    hide Token, Tokens, NotDefault;
    var prev := LastOf('>', w1);
    TokensConcat('>', w1 + t, w2);
    TokensConcat('>', w1, t);
    SpacesVanish('>', w1);
    SingleSpacedStays(prev, t);
    TokensAfterText(t[|t| - 1], w2);
  }

  lemma PrefixBeforeBlank(t: string, p: string)
    requires p != "" && p[|p| - 1] != ' ' && p <= t + " "
    ensures p <= t
  {
    var u := t + " ";
    assert p[|p| - 1] == u[|p| - 1] && u[|t|] == ' ';
    assert t == u[..|t|];
  }

  lemma DefaultWithBlank(t: string)
    requires t != "" && NotDefault(t)
    ensures NotDefault(t + " ")
  {
    assert (t + " ")[|t|] == ' ' && "00000"[4] == '0' && "0.50"[3] == '0' && "0.0"[2] == '0' && "1.0"[2] == '0';
    assert t + " " != "00000" by { assert |t| == 4 ==> (t + " ")[4] != "00000"[4]; }
    if "0.50" <= t + " " { PrefixBeforeBlank(t, "0.50"); }
    if "0.0" <= t + " " { PrefixBeforeBlank(t, "0.0"); }
    if "1.0" <= t + " " { PrefixBeforeBlank(t, "1.0"); }
  }

  lemma RunOfSpaces(tag: string, w: string)
    requires AllSpaces(w)
    ensures RunContent(tag, w) == []
  {
    SpacesVanish('>', w);
  }

  /** Between tags, white space around a normal text is lost and the text kept. */
  lemma RunOfText(w1: string, t: string, w2: string)
    requires AllSpaces(w1) && AllSpaces(w2) && NormalText(t)
    ensures RunContent("text", w1 + t + w2) == [TextNode(t)]
  {
    hide Tokens, Trim, Squeeze;
    SqueezeText(w1, t, w2);
    var w := if w2 == "" then "" else " ";
    TrimNormal(t, w);
    if w2 != "" { DefaultWithBlank(t); } else { assert t + w == t; }
  }

  // ---- the round trip ------------------------------------------------------------------

  lemma SpacesConcat(a: string, b: string)
    requires AllSpaces(a) && AllSpaces(b)
    ensures AllSpaces(a + b)
  {
  }

  /** The pending run is white space around at most one text. */
  lemma RunOfBoth(tag: string, w1: string, t: string, w2: string)
    requires AllSpaces(w1) && AllSpaces(w2) && (t == "" || (NormalText(t) && tag == "text"))
    ensures RunContent(tag, w1 + t + w2) == if t == "" then [] else [TextNode(t)]
  {
    if t == "" {
      assert w1 + t + w2 == w1 + w2;
      SpacesConcat(w1, w2);
      RunOfSpaces(tag, w1 + w2);
    } else {
      RunOfText(w1, t, w2);
    }
  }

  lemma ContentChars(tag: string, a: string, rest: seq<Node>, run: string)
    ensures Content(tag, [Chars(a)] + rest, run) == Content(tag, rest, run + a)
  {
    assert ([Chars(a)] + rest)[1..] == rest;
  }

  lemma ContentElem(tag: string, name: string, kids: seq<Node>, rest: seq<Node>, run: string)
    ensures Content(tag, [Elem(name, kids)] + rest, run) ==
      RunContent(tag, run) + ListEntry(name, Content(name, kids, "")) + Content(tag, rest, "")
  {
    assert ([Elem(name, kids)] + rest)[1..] == rest;
  }

  /** The layout of normal content is read back as that content. */
  lemma {:induction false} ContentOfLayout(tag: string, kids: seq<Xml>, level: nat, second: nat,
                                           w1: string, t: string, w2: string, tail: string)
    requires NormalKids(tag, kids) && AllSpaces(w1) && AllSpaces(w2) && AllSpaces(tail)
    requires t == "" || (NormalText(t) && tag == "text" && (kids == [] || kids[0].ListNode?))
    ensures Content(tag, LayoutOfKids(kids, level, second) + [Chars(tail)], w1 + t + w2) ==
      (if t == "" then [] else [TextNode(t)]) + kids
    decreases kids, 1
  {
    hide Content, RunContent, NormalText, Indent, Broken, AllSpaces;
    if kids == [] {
      assert LayoutOfKids(kids, level, second) + [Chars(tail)] == [Chars(tail)] + [];
      ContentChars(tag, tail, [], w1 + t + w2);
      ContentNone(tag, w1 + t + w2 + tail);
      SpacesConcat(w2, tail);
      RunOfBoth(tag, w1, t, w2 + tail);
      assert w1 + t + w2 + tail == w1 + t + (w2 + tail);
    } else {
      var a, c := Broken(second, Indent(level + 1)), Broken(second, "\n");
      var node := LayoutOf(kids[0], level, second + 1);
      var rest := LayoutOfKids(kids[1..], level, second) + [Chars(tail)];
      BrokenSpaces(level + 1, second);
      assert LayoutOfKids(kids, level, second) + [Chars(tail)] == [Chars(a)] + ([node] + ([Chars(c)] + rest));
      ContentChars(tag, a, [node] + ([Chars(c)] + rest), w1 + t + w2);
      if kids[0].TextNode? {
        TextKid(tag, kids, level, second, w1, w2, a, c, tail);
        assert w1 + t + w2 == w1 + w2;
      } else {
        ListKid(tag, kids, level, second, w1, t, w2, a, c, tail);
      }
    }
  }

  lemma {:induction false} TextKid(tag: string, kids: seq<Xml>, level: nat, second: nat,
                                   w1: string, w2: string, a: string, c: string, tail: string)
    requires kids != [] && kids[0].TextNode? && NormalKids(tag, kids)
    requires AllSpaces(w1) && AllSpaces(w2) && AllSpaces(a) && AllSpaces(c) && AllSpaces(tail)
    ensures Content(tag, [LayoutOf(kids[0], level, second + 1)] +
                ([Chars(c)] + (LayoutOfKids(kids[1..], level, second) + [Chars(tail)])), w1 + w2 + a) == kids
    decreases kids, 0
  {
    hide Content, RunContent, NormalText, AllSpaces, LayoutOfKids;
    var rest := LayoutOfKids(kids[1..], level, second) + [Chars(tail)];
    var t := kids[0].text;
    ContentChars(tag, t, [Chars(c)] + rest, w1 + w2 + a);
    ContentChars(tag, c, rest, w1 + w2 + a + t);
    SpacesConcat(w1, w2);
    SpacesConcat(w1 + w2, a);
    ContentOfLayout(tag, kids[1..], level, second, w1 + w2 + a, t, c, tail);
    NormalNonempty(t);
    assert kids == [kids[0]] + kids[1..];
  }

  lemma {:induction false} ListKid(tag: string, kids: seq<Xml>, level: nat, second: nat,
                                   w1: string, t: string, w2: string, a: string, c: string, tail: string)
    requires kids != [] && kids[0].ListNode? && NormalKids(tag, kids)
    requires t == "" || (NormalText(t) && tag == "text")
    requires AllSpaces(w1) && AllSpaces(w2) && AllSpaces(a) && AllSpaces(c) && AllSpaces(tail)
    ensures Content(tag, [LayoutOf(kids[0], level, second + 1)] +
                ([Chars(c)] + (LayoutOfKids(kids[1..], level, second) + [Chars(tail)])), w1 + t + w2 + a) ==
      (if t == "" then [] else [TextNode(t)]) + kids
    decreases kids, 0
  {
    hide Content, RunContent, NormalText, AllSpaces, LayoutOfKids;
    var rest := LayoutOfKids(kids[1..], level, second) + [Chars(tail)];
    var node := LayoutOf(kids[0], level, second + 1);
    SpacesConcat(w2, a);
    assert w1 + t + w2 + a == w1 + t + (w2 + a);
    RunOfBoth(tag, w1, t, w2 + a);
    ContentOfElem(kids[0], level, second + 1);
    ContentElem(tag, node.name, node.kids, [Chars(c)] + rest, w1 + t + w2 + a);
    ContentChars(tag, c, rest, "");
    NothingIsSpaces();
    ContentOfLayout(tag, kids[1..], level, second, c, "", "", tail);
    assert c + "" + "" == "" + c;
    assert kids == [kids[0]] + kids[1..];
  }

  lemma NothingIsSpaces()
    ensures AllSpaces("")
  {
  }

  lemma NormalNonempty(t: string)
    requires NormalText(t)
    ensures t != ""
  {
  }

  lemma ContentNone(tag: string, run: string)
    ensures Content(tag, [], run) == RunContent(tag, run)
  {
  }

  lemma {:induction false} ContentOfElem(o: Xml, level: nat, second: nat)
    requires o.ListNode? && NormalKids(o.name, o.content)
    ensures var node := LayoutOf(o, level, second);
            node.Elem? && node.name == o.name && Content(o.name, node.kids, "") == o.content
    decreases o, 1
  {
    var l, s := Level(o.name, level), Second(o.name, second);
    var x, y, inner := Broken(s, "\n"), Broken(s, Indent(l)), LayoutOfKids(o.content, l, s);
    hide Content, NormalKids, Indent, Broken, AllSpaces;
    BrokenSpaces(l, s);
    assert [Chars(x)] + inner + [Chars(y)] == [Chars(x)] + (inner + [Chars(y)]);
    ContentChars(o.name, x, inner + [Chars(y)], "");
    NothingIsSpaces();
    ContentOfLayout(o.name, o.content, l, s, x, "", "", y);
    assert x + "" + "" == "" + x;
  }

  function KidsOf(o: Xml): seq<Xml> {
    if o.ListNode? then o.content else []
  }

  function FactNodes(o: Xml): seq<Node> {
    [Chars("\n")] + LayoutOfKids(KidsOf(o), 0, 0) + [Chars("")]
  }

  /** The lines of a "fact" element on its own. */
  function RootLines(nodes: seq<Node>): seq<string> {
    ["", "<", "fact"] + LinesOf(nodes, "") + [">", "fact"]
  }

  function FactLines(o: Xml): seq<string> {
    RootLines(FactNodes(o))
  }

  lemma FactNodesOk(o: Xml)
    requires NormalFact(o)
    ensures o == ListNode("fact", o.content)
    ensures NodesOk(FactNodes(o)) && NameOk("fact")
    ensures Content("fact", FactNodes(o), "") == o.content
  {
    FactElem(o);
    hide NodesOk, Content, NormalKids, LayoutOfKids, LayoutOf;
    ElemLayoutOk(o, 0, 0);
    ContentOfElem(o, 0, 0);
  }

  lemma FactElem(o: Xml)
    requires NormalFact(o)
    ensures o == ListNode("fact", o.content) && NameOk("fact") && NormalKids(o.name, o.content)
    ensures LayoutOf(o, 0, 0) == Elem("fact", FactNodes(o))
  {
    hide NormalKids, LayoutOfKids;
  }

  lemma FactPrinted(o: Xml)
    requires NormalFact(o)
    ensures PrintFact(o) == "<" + ("fact>" + ((Render(FactNodes(o)) + "<") + ("/fact>" + "\n")))
  {
    FactElem(o);
    hide NormalKids, LayoutOfKids, LayoutOf, Render, PrintXml, FactNodes;
    PrintIsRender(o, 0, 0);
    RenderOne(LayoutOf(o, 0, 0));
    Regroup("fact", Render(FactNodes(o)));
    assert "fact" + ">" == "fact>" && "/" + "fact" + ">" == "/fact>";
  }

  lemma Regroup(name: string, r: string)
    ensures "<" + name + ">" + r + "</" + name + ">" + "\n" ==
      "<" + ((name + ">") + ((r + "<") + (("/" + name + ">") + "\n")))
  {
    var a, b, c, d := "<" + name + ">", "</", name + ">", "/" + name + ">";
    assert b + c == "<" + d;
    assert a + r + "</" + name + ">" == a + r + (b + c);
    assert a + r + ("<" + d) + "\n" == "<" + ((name + ">") + ((r + "<") + (d + "\n")));
  }

  /** A "fact" element tokenizes to its lines, whatever stood before it. */
  lemma RootTokens(prev: char, nodes: seq<Node>)
    requires NodesOk(nodes) && prev != '<' && prev != '>'
    ensures Tokens(prev, "<" + ("fact>" + ((Render(nodes) + "<") + ("/fact>" + "\n")))) == Unlines(RootLines(nodes))
  {
    hide NodesOk, LinesOf, Render, NameOk, Unlines, Tokens;
    NameFact();
    var kids := Render(nodes) + "<";
    var l := LinesOf(nodes, "");
    RenderTokens(nodes, "");
    assert "" + Render(nodes) + "<" == kids;
    TokensConcat(prev, "<", "fact>" + (kids + ("/fact>" + "\n")));
    TokensConcat('<', "fact>", kids + ("/fact>" + "\n"));
    TokensConcat('>', kids, "/fact>" + "\n");
    TokensConcat('<', "/fact>", "\n");
    One(prev, '<');
    One('>', '\n');
    OpenTagTokens("fact");
    CloseTagTokens("fact");
    assert "fact" + ">" == "fact>" && "/" + "fact" + ">" == "/fact>";
    UnlinesOfTwo("<", "fact");
    UnlinesConcat(["", "<", "fact"] + l, [">", "fact"]);
    UnlinesConcat(["", "<", "fact"], l);
    BlankLine(["<", "fact"]);
    assert ["", "<", "fact"] == [""] + ["<", "fact"];
  }

  lemma NameFact()
    ensures NameOk("fact")
  {
  }

  /** A printed fact tokenizes to its lines, whatever stood before it. */
  lemma FactTokens(prev: char, o: Xml)
    requires NormalFact(o) && prev != '<' && prev != '>'
    ensures Tokens(prev, PrintFact(o)) == Unlines(FactLines(o)) && LastOf(prev, PrintFact(o)) == '\n'
  {
    hide LayoutOfKids, NodesOk, LinesOf, Render, NameOk, Content, PrintXml, PrintFact, NormalFact, FactNodes, Unlines,
         Tokens, RootLines;
    FactNodesOk(o);
    FactPrinted(o);
    RootTokens(prev, FactNodes(o));
  }

  lemma BlankLine(lines: seq<string>)
    ensures Unlines([""] + lines) == "\n" + Unlines(lines)
  {
    assert ([""] + lines)[1..] == lines;
  }

  function DocLines(facts: seq<Xml>): seq<string> {
    if facts == [] then [] else FactLines(facts[0]) + DocLines(facts[1..])
  }

  predicate NormalFacts(facts: seq<Xml>) {
    forall f :: f in facts ==> NormalFact(f)
  }

  lemma {:induction false} DocTokens(prev: char, facts: seq<Xml>)
    requires NormalFacts(facts) && prev != '<' && prev != '>'
    ensures Tokens(prev, PrintFacts(facts)) == Unlines(DocLines(facts))
    decreases |facts|
  {
    hide Tokens, FactLines, PrintFact, NormalFact;
    if facts == [] {
      TokensNothing(prev);
    } else {
      assert facts[0] in facts;
      FactTokens(prev, facts[0]);
      DocTokens('\n', facts[1..]);
      TokensConcat(prev, PrintFact(facts[0]), PrintFacts(facts[1..]));
      UnlinesConcat(FactLines(facts[0]), DocLines(facts[1..]));
    }
  }

  lemma TokensNothing(prev: char)
    ensures Tokens(prev, "") == ""
  {
  }

  // ---- splitting the tokenized text into lines again ---------------------------------

  predicate OneLine(s: string) {
    NoneOf(s, {'\n'})
  }

  lemma {:induction false} SplitUnlines(lines: seq<string>)
    requires forall l :: l in lines ==> OneLine(l)
    ensures Split(Unlines(lines), {'\n'}) == lines + [""]
    decreases |lines|
  {
    if lines != [] {
      assert lines[0] in lines;
      SplitUnlines(lines[1..]);
      SplitFirst(lines[0], '\n', Unlines(lines[1..]), {'\n'});
      assert lines[0] + ['\n'] + Unlines(lines[1..]) == Unlines(lines);
      assert lines + [""] == [lines[0]] + (lines[1..] + [""]);
    }
  }

  lemma LinesOfUnlines(lines: seq<string>)
    requires forall l :: l in lines ==> OneLine(l)
    ensures Lines(Unlines(lines)) == lines
  {
    SplitUnlines(lines);
    assert (lines + [""])[..|lines + [""]| - 1] == lines;
  }

  lemma SqueezedOneLine(run: string)
    requires NoAngle(run)
    ensures OneLine(Squeeze(run))
  {
    SqueezeKeepsPlain('>', run);
    var t := Squeeze(run);
    forall c | c in t ensures c != '\n' {
      var i :| 0 <= i < |t| && t[i] == c;
    }
  }

  lemma NameOneLine(name: string)
    requires NameOk(name)
    ensures OneLine(name)
  {
    forall c | c in name ensures c != '\n' {
      var i :| 0 <= i < |name| && name[i] == c;
    }
  }

  lemma {:induction false} LayoutOneLines(nodes: seq<Node>, run: string)
    requires NodesOk(nodes) && NoAngle(run)
    ensures forall l :: l in LinesOf(nodes, run) ==> OneLine(l)
    decreases nodes
  {
    hide OneLine, Squeeze;
    SqueezedOneLine(run);
    if nodes == [] {
    } else if nodes[0].Chars? {
      LayoutOneLines(nodes[1..], run + nodes[0].chars);
    } else {
      NameOneLine(nodes[0].name);
      LayoutOneLines(nodes[0].kids, "");
      LayoutOneLines(nodes[1..], "");
      MarksOneLine();
    }
  }

  lemma MarksOneLine()
    ensures OneLine("<") && OneLine(">") && OneLine("")
  {
  }

  lemma {:induction false} DocOneLines(facts: seq<Xml>)
    requires NormalFacts(facts)
    ensures forall l :: l in DocLines(facts) ==> OneLine(l)
    decreases |facts|
  {
    hide NormalFact, FactNodes, OneLine, LinesOf, NodesOk, Content, PrintFact, Render;
    if facts != [] {
      assert facts[0] in facts;
      FactNodesOk(facts[0]);
      LayoutOneLines(FactNodes(facts[0]), "");
      NameOneLine("fact");
      MarksOneLine();
      DocOneLines(facts[1..]);
    }
  }

  /** A "fact" element is read as one fact, and the reader stops at its very end. */
  lemma RootIsRead(lines: seq<string>, i: nat, acc: seq<Xml>, nodes: seq<Node>)
    requires NodesOk(nodes) && At(lines, i, RootLines(nodes))
    ensures ReadFacts(lines, i, acc) ==
      ReadFacts(lines, i + |RootLines(nodes)|, acc + [ListNode("fact", Content("fact", nodes, ""))])
    ensures ReadTree(lines, i + 3, "fact", []) == Done(Content("fact", nodes, ""), i + |RootLines(nodes)| - 1)
  {
    hide NodesOk, Content, LinesOf, At, ReadTree, ReadFacts;
    var l, content := LinesOf(nodes, ""), Content("fact", nodes, "");
    assert RootLines(nodes) == [""] + ((["<", "fact"] + l) + [">", "fact"]);
    AtSplit(lines, i, [""], (["<", "fact"] + l) + [">", "fact"]);
    assert [""] == [""] + [];
    AtHead(lines, i, "", []);
    AtSplit(lines, i + 1, ["<", "fact"] + l, [">", "fact"]);
    AtSplit(lines, i + 1, ["<", "fact"], l);
    AtPair(lines, i + 1, "<", "fact");
    AtPair(lines, i + 3 + |l|, ">", "fact");
    LayoutIsRead(lines, i + 3, "fact", [], nodes, "");
    assert [] + content == content;
    TreeCloses(lines, i + 3 + |l|, "fact", content);
    FactStarts(lines, i, acc, content, i + 4 + |l|);
  }

  lemma TreeCloses(lines: seq<string>, i: nat, tag: string, acc: seq<Xml>)
    requires i + 1 < |lines| && lines[i] == ">" && lines[i + 1] == tag
    ensures ReadTree(lines, i, tag, acc) == Done(acc, i + 1)
  {
  }

  lemma FactStarts(lines: seq<string>, i: nat, acc: seq<Xml>, content: seq<Xml>, next: nat)
    requires i + 2 < |lines| && lines[i] == "" && lines[i + 1] == "<" && lines[i + 2] == "fact"
    requires ReadTree(lines, i + 3, "fact", []) == Done(content, next)
    ensures ReadFacts(lines, i, acc) == ReadFacts(lines, next + 1, acc + [ListNode("fact", content)])
  {
    assert ReadFacts(lines, i, acc) == ReadFacts(lines, i + 1, acc);
  }

  lemma FactIsRead(lines: seq<string>, i: nat, acc: seq<Xml>, o: Xml)
    requires NormalFact(o) && At(lines, i, FactLines(o))
    ensures ReadFacts(lines, i, acc) == ReadFacts(lines, i + |FactLines(o)|, acc + [o])
  {
    hide NodesOk, Content, PrintFact, Render, FactNodes, NormalFact, At, RootLines, ReadTree, ReadFacts;
    FactNodesOk(o);
    RootIsRead(lines, i, acc, FactNodes(o));
    assert o == ListNode("fact", o.content);
  }

  lemma {:induction false} DocIsRead(lines: seq<string>, i: nat, acc: seq<Xml>, facts: seq<Xml>)
    requires NormalFacts(facts) && At(lines, i, DocLines(facts)) && i + |DocLines(facts)| == |lines|
    ensures ReadFacts(lines, i, acc) == Facts(acc + facts)
    decreases |facts|
  {
    hide NormalFact, FactLines, At;
    if facts == [] {
      assert acc + facts == acc;
    } else {
      assert facts[0] in facts;
      AtSplit(lines, i, FactLines(facts[0]), DocLines(facts[1..]));
      FactIsRead(lines, i, acc, facts[0]);
      DocIsRead(lines, i + |FactLines(facts[0])|, acc + [facts[0]], facts[1..]);
      assert (acc + [facts[0]]) + facts[1..] == acc + facts;
    }
  }

  /** Normal-form facts, printed one after the other, tokenized, split into lines and
      read, come back as the same trees in the same order. */
  lemma FactsRoundTrip(facts: seq<Xml>)
    requires NormalFacts(facts)
    ensures ReadFacts(Lines(Tokens('\0', PrintFacts(facts))), 0, []) == Facts(facts)
  {
    hide NormalFacts, Tokens, Lines, Unlines;
    DocTokens('\0', facts);
    DocOneLines(facts);
    var lines := DocLines(facts);
    LinesOfUnlines(lines);
    assert lines[0..0 + |lines|] == lines;
    DocIsRead(lines, 0, [], facts);
    assert [] + facts == facts;
  }

  // ---- exactly the normal texts survive ----------------------------------------------

  lemma {:induction false} SqueezedNoDouble(prev: char, run: string)
    requires NoAngle(run) && prev != '<'
    ensures NoDoubleBlank(Tokens(prev, run))
    ensures (prev == '>' || IsSpace(prev)) && Tokens(prev, run) != "" ==> Tokens(prev, run)[0] != ' '
    decreases |run|
  {
    if run != "" {
      SqueezedNoDouble(run[0], run[1..]);
      var t, rest := Tokens(prev, run), Tokens(run[0], run[1..]);
      if Token(prev, run[0]) != "" {
        assert t == [t[0]] + rest && t[1..] == rest;
      } else {
        assert t == rest;
      }
    }
  }

  lemma {:induction false} NoDoubleAt(s: string, i: nat)
    requires NoDoubleBlank(s) && i + 1 < |s|
    ensures !(s[i] == ' ' && s[i + 1] == ' ')
    decreases i
  {
    if i > 0 { NoDoubleAt(s[1..], i - 1); }
  }

  lemma {:induction false} NoDoubleFromAll(s: string)
    requires forall i :: 0 <= i && i + 1 < |s| ==> !(s[i] == ' ' && s[i + 1] == ' ')
    ensures NoDoubleBlank(s)
    decreases |s|
  {
    if |s| >= 2 {
      var t := s[1..];
      forall i | 0 <= i && i + 1 < |t| ensures !(t[i] == ' ' && t[i + 1] == ' ') {
        assert t[i] == s[i + 1] && t[i + 1] == s[i + 2];
        var j := i + 1;
        assert !(s[j] == ' ' && s[j + 1] == ' ');
      }
      NoDoubleFromAll(t);
    }
  }

  lemma NoDoubleInside(s: string, a: nat, b: nat)
    requires NoDoubleBlank(s) && a <= b <= |s|
    ensures NoDoubleBlank(s[a..b])
  {
    hide NoDoubleBlank;
    var t := s[a..b];
    forall i | 0 <= i && i + 1 < |t| ensures !(t[i] == ' ' && t[i + 1] == ' ') {
      NoDoubleAt(s, a + i);
    }
    NoDoubleFromAll(t);
  }

  lemma {:induction false} TrimLeftInside(s: string, cs: set<char>) returns (a: nat)
    ensures a <= |s| && TrimLeft(s, cs) == s[a..]
  {
    if s != "" && s[0] in cs {
      a := TrimLeftInside(s[1..], cs);
      assert s[1..][a..] == s[a + 1..];
      a := a + 1;
    } else {
      a := 0;
    }
  }

  lemma {:induction false} TrimRightInside(s: string, cs: set<char>) returns (b: nat)
    ensures b <= |s| && TrimRight(s, cs) == s[..b]
  {
    if s != "" && s[|s| - 1] in cs {
      b := TrimRightInside(s[..|s| - 1], cs);
      assert s[..|s| - 1][..b] == s[..b];
    } else {
      b := |s|;
    }
  }

  /** Trimming leaves a part of the string whose ends need no trimming. */
  lemma TrimInside(s: string) returns (a: nat, b: nat)
    ensures a <= b <= |s| && Trim(s, TRIMMED) == s[a..b]
    ensures a < b ==> s[a] !in TRIMMED && s[b - 1] !in TRIMMED
  {
    a := TrimLeftInside(s, TRIMMED);
    var n := TrimRightInside(s[a..], TRIMMED);
    b := a + n;
    assert s[a..][..n] == s[a..b];
  }

  /** A text without angle brackets comes back from its element exactly when it is normal. */
  lemma TextSurvivesIffNormal(t: string)
    requires NoAngle(t)
    ensures Content("text", [Chars(t)], "") == [TextNode(t)] <==> NormalText(t)
  {
    assert [Chars(t)] == [Chars(t)] + [];
    ContentChars("text", t, [], "");
    assert "" + t == t;
    if NormalText(t) {
      RunOfText("", t, "");
      assert "" + t + "" == t;
    } else if RunContent("text", t) == [TextNode(t)] {
      SurvivorNormal(t);
    }
  }

  lemma DigitStays(d: string)
    requires d == "0" || d == "1"
    ensures Squeeze(d) == d && Trim(d, TRIMMED) == d
  {
    One('>', d[0]);
    assert d == [d[0]];
    TrimStays(d, TRIMMED);
  }

  lemma NotRewritten(t: string)
    requires RunContent("text", t) == [TextNode(t)]
    ensures !StartsWith(Squeeze(t), "0.0") && !StartsWith(Squeeze(t), "1.0")
    ensures t == Trim(Squeeze(t), TRIMMED) && t != ""
    ensures Squeeze(t) != "00000" && !StartsWith(Squeeze(t), "0.50")
  {
    hide Squeeze, Trim;
    DigitStays("0");
    DigitStays("1");
  }

  lemma SurvivorNormal(t: string)
    requires NoAngle(t) && RunContent("text", t) == [TextNode(t)]
    ensures NormalText(t)
  {
    hide Tokens, Trim, RunContent;
    var line := Squeeze(t);
    SqueezeKeepsPlain('>', t);
    SqueezedNoDouble('>', t);
    NotRewritten(t);
    var a, b := TrimInside(line);
    NoDoubleInside(line, a, b);
    assert forall i :: 0 <= i < |t| ==> t[i] == line[a + i];
    SingleSpacedStays('>', t);
  }

  // ---- the texts that do not survive ---------------------------------------------------

  /** What the reader makes of the text of an element: at most one text. */
  function ReadText(t: string): seq<string> {
    TextsOf(RunContent("text", t))
  }

  function TextsOf(kids: seq<Xml>): seq<string> {
    if kids == [] then [] else (if kids[0].TextNode? then [kids[0].text] else []) + TextsOf(kids[1..])
  }

  lemma ReadIsContent(t: string)
    ensures |ReadText(t)| <= 1
    ensures RunContent("text", t) == if ReadText(t) == [] then [] else [TextNode(ReadText(t)[0])]
  {
    hide Squeeze, Trim;
    var c := RunContent("text", t);
    assert c != [] ==> c[1..] == [] && TextsOf(c) == [c[0].text] + [];
  }

  /** Texts without needless white space are read as they are, but for defaults, which are
      dropped, and truth values, which are rounded. */
  lemma ReadValues(t: string)
    requires NoAngle(t) && SingleSpaced(t)
    ensures ReadText(t) ==
      if t == "" || t == "00000" || "0.50" <= t then []
      else if "0.0" <= t then ["0"]
      else if "1.0" <= t then ["1"]
      else [t]
  {
    hide Tokens, Trim, NoDoubleBlank;
    if t != "" {
      SingleSpacedStays('>', t);
      TrimStays(t, TRIMMED);
      TrimStays("0", TRIMMED);
      TrimStays("1", TRIMMED);
      TrimOf(t);
      TrimOf("0");
      TrimOf("1");
      assert forall k: Xml :: TextsOf([k]) == (if k.TextNode? then [k.text] else []) + TextsOf([k][1..]);
    }
  }

  lemma TrimOf(t: string)
    requires TrimLeft(t, TRIMMED) == t && TrimRight(t, TRIMMED) == t
    ensures Trim(t, TRIMMED) == t
  {
  }

  lemma NormalIsRead(t: string)
    requires NormalText(t)
    ensures ReadText(t) == [t]
  {
    hide SingleSpaced, NoAngle;
    ReadValues(t);
  }

  // ---- white space and lines ------------------------------------------------------------

  /** Blanks, tabs, carriage returns and newlines are all the same to the tokenizer. */
  lemma {:induction false} WhiteSpaceAlike(prev: char, a: string, c: char, d: char, b: string)
    requires c in {' ', '\t', '\r', '\n'} && d in {' ', '\t', '\r', '\n'}
    ensures Tokens(prev, a + [c] + b) == Tokens(prev, a + [d] + b)
    ensures Tokens(prev, a + [c, d] + b) == Tokens(prev, a + [c] + b)
  {
    hide Tokens;
    var p := LastOf(prev, a);
    assert a + [c] + b == a + ([c] + b) && a + [d] + b == a + ([d] + b) && a + [c, d] + b == a + ([c, d] + b);
    TokensConcat(prev, a, [c] + b);
    TokensConcat(prev, a, [d] + b);
    TokensConcat(prev, a, [c, d] + b);
    AfterSpace(p, c, b);
    AfterSpace(p, d, b);
    AfterSpace(p, c, [d] + b);
    AfterSpace(' ', d, b);
    assert [c] + ([d] + b) == [c, d] + b;
  }

  lemma AfterSpace(prev: char, c: char, b: string)
    requires c in {' ', '\t', '\r', '\n'}
    ensures Tokens(prev, [c] + b) == (if IsSpace(prev) || prev == '>' then "" else " ") + Tokens(' ', b)
  {
    assert ([c] + b)[1..] == b;
    SpaceBefore(c, b);
  }

  lemma SpaceBefore(c: char, b: string)
    requires IsSpace(c)
    ensures Tokens(c, b) == Tokens(' ', b)
  {
    if b != "" { assert Token(c, b[0]) == Token(' ', b[0]); }
  }

  /** A tree on one line. */
  function Flat(o: Xml): string
    decreases o
  {
    match o
    case TextNode(text) => text
    case ListNode(name, content) => "<" + name + ">" + AllFlat(content) + "</" + name + ">"
  }

  function AllFlat(kids: seq<Xml>): string
    decreases kids
  {
    if kids == [] then "" else Flat(kids[0]) + AllFlat(kids[1..])
  }

  predicate NoClause(o: Xml) {
    o.ListNode? ==> o.name != "clause" && NoClauses(o.content)
  }

  predicate NoClauses(kids: seq<Xml>) {
    kids == [] || (NoClause(kids[0]) && NoClauses(kids[1..]))
  }

  lemma {:induction false} InnerIsFlat(o: Xml, level: nat, second: nat)
    requires NoClause(o) && second > 0
    ensures PrintXml(o, level, second) == Flat(o)
    decreases o
  {
    if o.ListNode? {
      KidsAreFlat(o.content, level, second);
      var k := AllFlat(o.content);
      assert "<" + o.name + ">" + "" + k + "" + "</" + o.name + ">" == "<" + o.name + ">" + k + "</" + o.name + ">";
    }
  }

  lemma {:induction false} KidsAreFlat(kids: seq<Xml>, level: nat, second: nat)
    requires NoClauses(kids) && second > 0
    ensures PrintKids(kids, level, second) == AllFlat(kids)
    decreases kids
  {
    hide Indent, Flat, PrintXml;
    if kids != [] {
      NoClauseFirst(kids);
      InnerIsFlat(kids[0], level, second + 1);
      KidsAreFlat(kids[1..], level, second);
      assert "" + Flat(kids[0]) + "" == Flat(kids[0]);
    }
  }

  lemma NoClauseFirst(kids: seq<Xml>)
    requires NoClauses(kids) && kids != []
    ensures NoClause(kids[0]) && NoClauses(kids[1..])
  {
  }

  /** Each part on a line of its own, indented by two blanks. */
  function PartLines(kids: seq<Xml>): string {
    if kids == [] then "" else "  " + Flat(kids[0]) + "\n" + PartLines(kids[1..])
  }

  lemma {:induction false} PartsByLine(kids: seq<Xml>)
    requires NoClauses(kids)
    ensures PrintKids(kids, 0, 0) == PartLines(kids)
    decreases kids
  {
    hide Flat, PrintXml;
    if kids != [] {
      NoClauseFirst(kids);
      InnerIsFlat(kids[0], 0, 1);
      PartsByLine(kids[1..]);
      assert Indent(1) == "  " + Indent(0) == "  ";
    }
  }

  /** A fact without clauses is printed with one line for each of its parts. */
  lemma FactByLine(parts: seq<Xml>)
    requires NoClauses(parts)
    ensures PrintFact(ListNode("fact", parts)) == "<fact>\n" + PartLines(parts) + "</fact>\n"
  {
    hide PrintKids, PartLines;
    PartsByLine(parts);
    var p := PartLines(parts);
    assert Indent(0) == "";
    assert "<" + "fact" + ">" == "<fact>" && "</" + "fact" + ">" == "</fact>" && "<fact>" + "\n" == "<fact>\n";
    assert PrintXml(ListNode("fact", parts), 0, 0) == "<fact>" + "\n" + p + "" + "</" + "fact" + ">";
    assert "<fact>" + "\n" + p + "" + "</" + "fact" + ">" == "<fact>\n" + p + "</fact>";
  }
}
