/** The words of a fact tree. The source caches them in each node; here they are a
    function of the tree. */
module Words {
  import opened Text
  import opened XmlCodec

  predicate IsWordChar(c: char) {
    'a' <= c <= 'z' || 'A' <= c <= 'Z' || IsDigit(c) || c in "}{][=-)(_"
  }

  function Emit(run: string): seq<string> {
    if run == "" || run == "1" then [] else [run]
  }

  /** `prepare_words` on a text: its maximal runs of word characters, "1" left out. */
  function Runs(s: string, run: string): seq<string>
    decreases |s|
  {
    if s == "" then Emit(run)
    else if IsWordChar(s[0]) then Runs(s[1..], run + [s[0]])
    else Emit(run) + Runs(s[1..], "")
  }

  function TextWords(text: string): seq<string> {
    Runs(text, "")
  }

  // ---- what the words of a text are -----------------------------------------------------

  /** Letters, digits and some brackets and marks: what a text is not split at. */
  predicate WordText(s: string) {
    forall i :: 0 <= i < |s| ==>
      'a' <= s[i] <= 'z' || 'A' <= s[i] <= 'Z' || '0' <= s[i] <= '9' ||
      s[i] in {'}', '{', ']', '[', '=', '-', ')', '(', '_'}
  }

  lemma WordTextChars(s: string)
    ensures WordText(s) <==> forall i :: 0 <= i < |s| ==> IsWordChar(s[i])
  {
    assert "}{][=-)(_" == ['}', '{', ']', '[', '=', '-', ')', '(', '_'];
  }

  lemma {:induction false} RunsOfWord(s: string, run: string)
    requires forall i :: 0 <= i < |s| ==> IsWordChar(s[i])
    ensures Runs(s, run) == Emit(run + s)
    decreases |s|
  {
    if s == "" {
      assert run + s == run;
    } else {
      RunsOfWord(s[1..], run + [s[0]]);
      assert (run + [s[0]]) + s[1..] == run + s;
    }
  }

  /** A text that is one word has that word, "1" and the empty text have none. */
  lemma WordOfText(w: string)
    requires WordText(w)
    ensures TextWords(w) == if w == "" || w == "1" then [] else [w]
  {
    WordTextChars(w);
    RunsOfWord(w, "");
    assert "" + w == w;
  }

  lemma {:induction false} RunsSplit(a: string, c: char, b: string, run: string)
    requires !IsWordChar(c)
    ensures Runs(a + [c] + b, run) == Runs(a, run) + Runs(b, "")
    decreases |a|
  {
    var s := a + [c] + b;
    if a == "" {
      assert s[0] == c && s[1..] == b;
    } else {
      assert s[0] == a[0] && s[1..] == a[1..] + [c] + b;
      if IsWordChar(a[0]) {
        RunsSplit(a[1..], c, b, run + [a[0]]);
      } else {
        RunsSplit(a[1..], c, b, "");
        assert Emit(run) + (Runs(a[1..], "") + Runs(b, "")) == (Emit(run) + Runs(a[1..], "")) + Runs(b, "");
      }
    }
  }

  /** Every other character parts the words before it from those after it. Every text is a
      word text or parted by such a character, so the two laws say what the words are. */
  lemma WordsParted(a: string, c: char, b: string)
    requires !WordText([c])
    ensures TextWords(a + [c] + b) == TextWords(a) + TextWords(b)
  {
    WordTextChars([c]);
    assert [c][0] == c;
    RunsSplit(a, c, b, "");
  }

  /** `get_words`: a list collects its children's words, a "truth" has none. */
  function TreeWords(o: Xml): seq<string> {
    match o
    case TextNode(text) => TextWords(text)
    case ListNode(name, content) => if name == "truth" then [] else ListWords(content)
  }

  function ListWords(kids: seq<Xml>): seq<string> {
    if kids == [] then [] else TreeWords(kids[0]) + ListWords(kids[1..])
  }

  lemma {:induction false} RunsNonempty(s: string, run: string)
    ensures forall w :: w in Runs(s, run) ==> w != ""
    decreases |s|
  {
    if s != "" {
      RunsNonempty(s[1..], run + [s[0]]);
      RunsNonempty(s[1..], "");
    }
  }

  /** A text leaf that no "truth" stands above. */
  ghost predicate HasLeaf(o: Xml, text: string)
    decreases o
  {
    match o
    case TextNode(t) => t == text
    case ListNode(name, content) => name != "truth" && exists k :: k in content && HasLeaf(k, text)
  }

  /** The words of a tree are the words of its text leaves, those of a "truth" left out. */
  lemma {:induction false} TreeWordsAreLeafWords(o: Xml, w: string)
    ensures w in TreeWords(o) <==> exists text :: HasLeaf(o, text) && w in TextWords(text)
    decreases o, 0
  {
    hide TextWords;
    match o
    case TextNode(t) =>
      if w in TextWords(t) { assert HasLeaf(o, t); }
    case ListNode(name, content) =>
      if name != "truth" { ListWordsAreLeafWords(content, w); }
  }

  lemma {:induction false} ListWordsAreLeafWords(kids: seq<Xml>, w: string)
    ensures w in ListWords(kids) <==> exists k, text :: k in kids && HasLeaf(k, text) && w in TextWords(text)
    decreases kids, 1
  {
    hide TextWords, TreeWords, HasLeaf;
    if kids != [] {
      TreeWordsAreLeafWords(kids[0], w);
      ListWordsAreLeafWords(kids[1..], w);
      assert forall k :: k in kids <==> k == kids[0] || k in kids[1..];
    }
  }

  function NameOf(o: Xml): string {
    if o.ListNode? then o.name else ""
  }

  function Embedded(o: Xml): seq<Xml> {
    if o.ListNode? then o.content else []
  }

  function Named(kids: seq<Xml>, tag: string): (r: seq<Xml>)
    ensures forall o :: o in r ==> NameOf(o) == tag
  {
    if kids == [] then []
    else if NameOf(kids[0]) == tag then [kids[0]] + Named(kids[1..], tag)
    else Named(kids[1..], tag)
  }

  /** `part` into a vector: the children of that name. */
  function Parts(o: Xml, tag: string): seq<Xml> {
    Named(Embedded(o), tag)
  }

  function Merged(kids: seq<Xml>): seq<Xml> {
    if kids == [] then [] else Embedded(kids[0]) + Merged(kids[1..])
  }

  /** `part` as one tree: the only child of that name, or all of them merged. */
  function Part(o: Xml, tag: string): Xml {
    var parts := Parts(o, tag);
    if |parts| == 1 then parts[0] else ListNode(tag, Merged(parts))
  }
}
