/** How the tagged words are found in the input string. */
module InputWords {
  import opened Text
  import opened Entities
  import opened Grammars

  /** The words of an input string, without the two end markers. */
  function WordsOf(s: string): seq<Entity> {
    TaggedWords(Split(s, {'#', '>'}))
  }

  lemma {:induction false} TaggedConcat(a: seq<string>, b: seq<string>)
    ensures TaggedWords(a + b) == TaggedWords(a) + TaggedWords(b)
    decreases |a|
  {
    hide NewEntity, Trim, Split;
    if a == [] {
      assert a + b == b;
    } else {
      TaggedConcat(a[1..], b);
      assert (a + b)[1..] == a[1..] + b && (a + b)[0] == a[0];
    }
  }

  /** Words stand between the end markers, and "#" and ">" part them. */
  lemma InputParted(a: string, c: char, b: string)
    requires c == '#' || c == '>'
    ensures ParsedInput(a) == [NewEntity("d-^", [])] + WordsOf(a) + [NewEntity("d-$", [])]
    ensures WordsOf(a + [c] + b) == WordsOf(a) + WordsOf(b)
  {
    hide NewEntity, Split, TaggedWords;
    SplitJoin(a, c, b, {'#', '>'});
    TaggedConcat(Split(a, {'#', '>'}), Split(b, {'#', '>'}));
  }

  predicate Blank(w: string) {
    forall i :: 0 <= i < |w| ==> w[i] in {' ', '\t', '\n', '\r', 11 as char, 12 as char}
  }

  /** A tag or text as it is meant: without the characters that part, and without white space at its ends. */
  predicate Field(t: string) {
    NoneOf(t, {'#', '>', '|', '<'}) && (t != "" ==> !Blank(t[..1]) && !Blank(t[|t| - 1..]))
  }

  lemma {:induction false} TrimLeftBlank(w: string, t: string)
    requires Blank(w) && (t != "" ==> !Blank(t[..1]))
    ensures TrimLeft(w + t, WHITESPACE) == t
    decreases |w|
  {
    if w == "" {
      assert w + t == t;
      assert t != "" ==> t[..1][0] == t[0];
    } else {
      assert (w + t)[1..] == w[1..] + t && (w + t)[0] == w[0];
      TrimLeftBlank(w[1..], t);
    }
  }

  lemma {:induction false} TrimRightBlank(t: string, w: string)
    requires Blank(w) && (t != "" ==> !Blank(t[|t| - 1..]))
    ensures TrimRight(t + w, WHITESPACE) == t
    decreases |w|
  {
    if w == "" {
      assert t + w == t;
      assert t != "" ==> t[|t| - 1..][0] == t[|t| - 1];
    } else {
      var u := t + w;
      assert u[..|u| - 1] == t + w[..|w| - 1] && u[|u| - 1] == w[|w| - 1];
      TrimRightBlank(t, w[..|w| - 1]);
    }
  }

  lemma {:induction false} AllTrimmed(w: string)
    requires Blank(w)
    ensures TrimLeft(w, WHITESPACE) == "" && TrimRight("", WHITESPACE) == ""
  {
    assert w + "" == w;
    TrimLeftBlank(w, "");
  }

  lemma TrimField(w: string, t: string, v: string)
    requires Blank(w) && Blank(v) && Field(t)
    ensures Trim(w + t + v, WHITESPACE) == t
  {
    if t == "" {
      assert w + t + v == w + v && Blank(w + v);
      AllTrimmed(w + v);
    } else {
      assert w + t + v == w + (t + v) && (t + v)[..1] == t[..1];
      TrimLeftBlank(w, t + v);
      TrimRightBlank(t, v);
    }
  }

  lemma BlankNoSeparator(w: string)
    requires Blank(w)
    ensures NoneOf(w, {'#', '>', '|', '<'})
  {
  }

  lemma NoneOfConcat(a: string, b: string, seps: set<char>)
    ensures NoneOf(a + b, seps) <==> NoneOf(a, seps) && NoneOf(b, seps)
  {
    if NoneOf(a + b, seps) {
      forall c | c in a || c in b ensures c !in seps { assert c in a + b; }
    }
  }

  /** One piece with one bar, which may be "|" or "<", is a word: its tag before the bar and its
      text after it, white space around them aside. */
  lemma OneWord(w1: string, tag: string, w2: string, bar: char, w3: string, text: string, w4: string)
    requires Blank(w1) && Blank(w2) && Blank(w3) && Blank(w4) && Field(tag) && Field(text) && (bar == '|' || bar == '<')
    ensures WordsOf((w1 + tag + w2) + [bar] + (w3 + text + w4)) == [NewEntity(tag, []).(text := text)]
  {
    hide NewEntity, Trim, Blank, Field, Split;
    var a, b := w1 + tag + w2, w3 + text + w4;
    var s := a + [bar] + b;
    FieldSplits(w1, tag, w2);
    FieldSplits(w3, text, w4);
    PieceOfBar(a, bar, b);
    TrimField(w1, tag, w2);
    TrimField(w3, text, w4);
    BarPiece(s, a, b);
  }

  lemma FieldSplits(w: string, t: string, v: string)
    requires Blank(w) && Blank(v) && Field(t)
    ensures NoneOf(w + t + v, {'#', '>', '|', '<'})
  {
    BlankNoSeparator(w);
    BlankNoSeparator(v);
    NoneOfConcat(w, t, {'#', '>', '|', '<'});
    NoneOfConcat(w + t, v, {'#', '>', '|', '<'});
  }

  lemma PieceOfBar(a: string, bar: char, b: string)
    requires NoneOf(a, {'#', '>', '|', '<'}) && NoneOf(b, {'#', '>', '|', '<'}) && (bar == '|' || bar == '<')
    ensures var s := a + [bar] + b;
            s != "" && s != "null" && Split(s, {'#', '>'}) == [s] && Split(s, {'|', '<'}) == [a, b]
  {
    var s := a + [bar] + b;
    assert s[|a|] == bar && "null" == ['n', 'u', 'l', 'l'];
    SplitWhole(s, {'#', '>'});
    SplitWhole(b, {'|', '<'});
    SplitFirst(a, bar, b, {'|', '<'});
  }

  lemma BarPiece(s: string, a: string, b: string)
    requires s != "" && s != "null" && Split(s, {'#', '>'}) == [s] && Split(s, {'|', '<'}) == [a, b]
    ensures WordsOf(s) == [NewEntity(Trim(a, WHITESPACE), []).(text := Trim(b, WHITESPACE))]
  {
    hide NewEntity, Trim, Split;
    assert [s][1..] == [] && TaggedWords([]) == [];
  }

  /** A piece without a bar, or with two or more, is left out. */
  lemma NoWord(a: string, x: char, b: string, y: char, c: string)
    requires NoneOf(a, {'#', '>', '|', '<'}) && NoneOf(b + c, {'#', '>'})
    requires (x == '|' || x == '<') && (y == '|' || y == '<')
    ensures WordsOf(a) == [] && WordsOf(a + [x] + b + [y] + c) == []
  {
    hide NewEntity, Trim, Split;
    SplitWhole(a, {'#', '>'});
    SplitWhole(a, {'|', '<'});
    assert [a][1..] == [] && TaggedWords([]) == [];
    var s := a + [x] + b + [y] + c;
    NoneOfConcat(b, c, {'#', '>'});
    NoneOfConcat(a + [x] + b + [y], c, {'#', '>'});
    NoneOfConcat(a + [x] + b, [y], {'#', '>'});
    NoneOfConcat(a + [x], b, {'#', '>'});
    NoneOfConcat(a, [x], {'#', '>'});
    SplitWhole(s, {'#', '>'});
    assert s == a + [x] + (b + [y] + c);
    SplitJoin(a, x, b + [y] + c, {'|', '<'});
    SplitJoin(b, y, c, {'|', '<'});
    assert [s][1..] == [];
  }
}
