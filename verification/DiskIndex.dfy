/** The fact index on disk: every fact is stored once for each four-letter prefix of its
    words, and looked up by the prefix of one word. */
module DiskIndex {
  import opened Text
  import opened XmlCodec
  import opened Words
  import opened Filters
  import opened Synonyms

  // ---- keys ------------------------------------------------------------------------

  const KEY_LENGTH: nat := 4

  function Padding(n: nat): (s: string)
    ensures |s| == n && forall i :: 0 <= i < n ==> s[i] == '_'
  {
    seq(n, _ => '_')
  }

  /** `diskdb_key`: the first four characters in lower case, filled up with '_'. */
  function DiskKey(w: string): (key: string)
    ensures |key| == KEY_LENGTH
  {
    var key := Lower(w[..if |w| < KEY_LENGTH then |w| else KEY_LENGTH]);
    key + Padding(KEY_LENGTH - |key|)
  }

  method MakeKey(w: string) returns (key: string)
    ensures key == DiskKey(w)
  {
    key := Lower(w[..if |w| < KEY_LENGTH then |w| else KEY_LENGTH]);
    ghost var start := key;
    while |key| < KEY_LENGTH
      invariant |start| <= |key| <= KEY_LENGTH && key == start + Padding(|key| - |start|)
    {
      key := key + "_";
    }
  }

  /** Case does not matter for a key, and a key is its own key. */
  lemma KeyOfKey(w: string)
    ensures DiskKey(DiskKey(w)) == DiskKey(w) == DiskKey(Lower(w))
  {
  }

  // ---- which words count -------------------------------------------------------------

  /** `is_index_word` of a lower-case word without tags. */
  predicate IndexWord(w: string) {
    w !in {"a", "the", "in", "verb", "von", "der", "die", "das", "ein", "eine"}
  }

  /** `is_index_word` of a word and the one before it. */
  predicate IndexPair(before: string, w: string) {
    !(before == "(a)" && w == "name")
  }

  predicate EligibleAt(words: seq<string>, i: nat)
    requires i < |words|
  {
    IndexWord(Lower(words[i])) && IndexPair(if i == 0 then "" else Lower(words[i - 1]), Lower(words[i]))
  }

  ghost predicate HasKeyIn(words: seq<string>, key: string) {
    exists i :: 0 <= i < |words| && EligibleAt(words, i) && DiskKey(words[i]) == key
  }

  /** The fact has an eligible word with this key. */
  ghost predicate HasKey(f: Xml, key: string) {
    HasKeyIn(TreeWords(f), key)
  }

  /** What a scan of all facts finds. */
  ghost function Scan(facts: set<Xml>, key: string): set<Xml> {
    set f | f in facts && !IsSynonym(f) && HasKey(f, key)
  }

  lemma {:induction false} TreeWordsNonempty(o: Xml)
    ensures forall w :: w in TreeWords(o) ==> w != ""
    decreases o, 0
  {
    match o
    case TextNode(text) => RunsNonempty(text, "");
    case ListNode(name, content) => ListWordsNonempty(content);
  }

  lemma {:induction false} ListWordsNonempty(kids: seq<Xml>)
    ensures forall w :: w in ListWords(kids) ==> w != ""
    decreases kids, 1
  {
    if kids != [] {
      TreeWordsNonempty(kids[0]);
      ListWordsNonempty(kids[1..]);
    }
  }

  // ---- the store -----------------------------------------------------------------------

  datatype FileId = FileId(kind: string, key: string, file: string)

  type Files = map<FileId, seq<string>>

  /** The strings of one index file, none if there is no such file. */
  function StringsAt(files: Files, key: string, file: string): set<string> {
    var id := FileId("index", key, file);
    if id in files then set s | s in files[id] else {}
  }

  function Printed(facts: set<Xml>): set<string> {
    set f | f in facts :: PrintFact(f)
  }

  ghost function StoredAs(stored: map<string, set<Xml>>, file: string): set<Xml> {
    if file in stored then stored[file] else {}
  }

  /** Each index file holds exactly what a scan of the facts stored under its name finds. */
  ghost predicate Reflects(files: Files, stored: map<string, set<Xml>>) {
    forall key, file :: StringsAt(files, key, file) == Printed(Scan(StoredAs(stored, file), key))
  }

  ghost predicate AllNormal(stored: map<string, set<Xml>>) {
    forall file, f :: file in stored && f in stored[file] ==> NormalFact(f)
  }

  class Disk {
    var files: Files

    constructor ()
      ensures files == map[]
    {
      files := map[];
    }
  }

  // ---- a printed index file read back -----------------------------------------------------

  function Concat(list: seq<string>): string {
    if list == [] then "" else list[0] + Concat(list[1..])
  }

  lemma {:induction false} ConcatSnoc(list: seq<string>, s: string)
    ensures Concat(list + [s]) == Concat(list) + s
    decreases |list|
  {
    if list == [] {
      assert [s][1..] == [] && list + [s] == [s] && Concat([]) == "";
      assert s + "" == s && "" + s == s;
    } else {
      ConcatSnoc(list[1..], s);
      assert (list + [s])[1..] == list[1..] + [s];
      assert list[0] + (Concat(list[1..]) + s) == (list[0] + Concat(list[1..])) + s;
    }
  }

  function AsSet(facts: seq<Xml>): set<Xml> {
    set f | f in facts
  }

  /** The printer is injective on normal facts. */
  lemma PrintInjective(f: Xml, g: Xml)
    requires NormalFact(f) && NormalFact(g) && PrintFact(f) == PrintFact(g)
    ensures f == g
  {
    hide NormalFact, PrintFact, Tokens, Lines, ReadFacts;
    FactsRoundTrip([f]);
    FactsRoundTrip([g]);
    assert [f][1..] == [] && [g][1..] == [];
    assert [f][0] == [g][0];
  }

  lemma {:induction false} Unprint(list: seq<string>, facts: set<Xml>) returns (r: seq<Xml>)
    requires forall s :: s in list ==> s in Printed(facts)
    ensures PrintFacts(r) == Concat(list)
    ensures |r| == |list| && forall i :: 0 <= i < |r| ==> r[i] in facts && list[i] == PrintFact(r[i])
    decreases |list|
  {
    hide PrintFact;
    if list == [] {
      r := [];
    } else {
      assert list[0] in Printed(facts);
      var f :| f in facts && list[0] == PrintFact(f);
      var rest := Unprint(list[1..], facts);
      r := [f] + rest;
      assert r[1..] == rest;
    }
  }

  /** A list of the printed facts, in any order, is read back as those facts. */
  lemma ListingIsRead(list: seq<string>, facts: set<Xml>)
    requires forall f :: f in facts ==> NormalFact(f)
    requires (set s | s in list) == Printed(facts)
    ensures var r := ReadFacts(Lines(Tokens('\0', Concat(list))), 0, []);
            r.Facts? && AsSet(r.facts) == facts
  {
    hide NormalFact, PrintFact, Tokens, Lines, ReadFacts;
    assert forall s :: s in list ==> s in (set s | s in list);
    var r := Unprint(list, facts);
    FactsRoundTrip(r);
    forall f | f in facts ensures f in r {
      assert PrintFact(f) in Printed(facts);
      var i :| 0 <= i < |list| && list[i] == PrintFact(f);
      PrintInjective(f, r[i]);
    }
  }

  // ---- the database ------------------------------------------------------------------------

  type Index = map<string, set<Xml>>

  function IndexAt(index: Index, key: string): set<Xml> {
    if key in index then index[key] else {}
  }

  /** The index after the words up to `n` of the fact `f` have been entered. */
  ghost predicate Entered(index: Index, after: Index, f: Xml, words: seq<string>, n: nat)
    requires n <= |words|
  {
    && (forall key, g :: g in IndexAt(after, key) <==>
          g in IndexAt(index, key) || (g == f && HasKeyIn(words[..n], key)))
    && (forall key :: key in after ==> key in index || DiskKey(key) == key)
  }

  lemma EnterWord(index: Index, before: Index, after: Index, f: Xml, words: seq<string>, n: nat)
    requires n < |words| && Entered(index, before, f, words, n)
    requires var key := DiskKey(words[n]);
             after == if EligibleAt(words, n) then before[key := IndexAt(before, key) + {f}] else before
    ensures Entered(index, after, f, words, n + 1)
  {
    hide DiskKey, EligibleAt, HasKeyIn, Lower;
    KeyOfKey(words[n]);
    forall key ensures HasKeyIn(words[..n + 1], key) <==>
                         HasKeyIn(words[..n], key) || (EligibleAt(words, n) && DiskKey(words[n]) == key) {
      OneWordMore(words, n, key);
    }
    forall key, g ensures g in IndexAt(after, key) <==>
                            g in IndexAt(before, key) || (g == f && EligibleAt(words, n) && DiskKey(words[n]) == key) {
    }
  }

  lemma OneWordMore(words: seq<string>, n: nat, key: string)
    requires n < |words|
    ensures HasKeyIn(words[..n + 1], key) <==>
              HasKeyIn(words[..n], key) || (EligibleAt(words, n) && DiskKey(words[n]) == key)
  {
    hide DiskKey, IndexWord, IndexPair, Lower;
    var a, b := words[..n], words[..n + 1];
    forall i | 0 <= i < |b| ensures b[i] == words[i] && EligibleAt(b, i) == EligibleAt(words, i) {
      if i > 0 { assert b[i - 1] == words[i - 1]; }
    }
    forall i | 0 <= i < n ensures a[i] == b[i] && EligibleAt(a, i) == EligibleAt(b, i) {
      if i > 0 { assert a[i - 1] == b[i - 1]; }
    }
    if HasKeyIn(b, key) {
      var i :| 0 <= i < |b| && EligibleAt(b, i) && DiskKey(b[i]) == key;
      if i < n { assert EligibleAt(a, i) && DiskKey(a[i]) == key; }
    }
    if HasKeyIn(a, key) {
      var i :| 0 <= i < |a| && EligibleAt(a, i) && DiskKey(a[i]) == key;
      assert EligibleAt(b, i) && DiskKey(b[i]) == key;
    }
    if EligibleAt(words, n) && DiskKey(words[n]) == key {
      assert EligibleAt(b, n) && DiskKey(b[n]) == key;
    }
  }

  method SetOf(list: seq<string>) returns (strings: set<string>)
    ensures strings == set s | s in list
  {
    strings := {};
    for n := 0 to |list|
      invariant strings == set s | s in list[..n]
    {
      assert list[..n + 1] == list[..n] + [list[n]];
      strings := strings + {list[n]};
    }
    assert list[..|list|] == list;
  }

  method AddPrinted(facts: set<Xml>, start: set<string>) returns (strings: set<string>)
    ensures strings == Printed(facts) + start
  {
    hide PrintFact;
    strings := start;
    var left := facts;
    while left != {}
      invariant left <= facts && strings == Printed(facts - left) + start
      decreases |left|
    {
      var f :| f in left;
      assert facts - (left - {f}) == (facts - left) + {f};
      PrintedOneMore(facts - left, f);
      strings := strings + {PrintFact(f)};
      left := left - {f};
    }
    assert facts - left == facts;
  }

  lemma PrintedOneMore(facts: set<Xml>, f: Xml)
    ensures Printed(facts + {f}) == Printed(facts) + {PrintFact(f)}
  {
  }

  /** The strings of a set, each once, in any order. */
  method Listing(strings: set<string>) returns (list: seq<string>)
    ensures (set s | s in list) == strings && |list| == |strings|
  {
    list := [];
    var left := strings;
    while left != {}
      invariant left <= strings && (set s | s in list) == strings - left && |list| + |left| == |strings|
      decreases |left|
    {
      var s :| s in left;
      assert (set t | t in list + [s]) == (set t | t in list) + {s};
      assert strings - (left - {s}) == (strings - left) + {s};
      list := list + [s];
      left := left - {s};
    }
  }

  method Append(list: seq<string>) returns (instr: string)
    ensures instr == Concat(list)
  {
    instr := "";
    for n := 0 to |list|
      invariant instr == Concat(list[..n])
    {
      assert list[..n + 1] == list[..n] + [list[n]];
      ConcatSnoc(list[..n], list[n]);
      instr := instr + list[n];
    }
    assert list[..|list|] == list;
  }

  class DiskDb {
    const disk: Disk
    const synonyms: SynonymTable
    var filename: string
    var complete: bool
    var addSynonyms: bool
    var uniquefacts: set<Xml>
    var index: Index

    constructor (disk: Disk)
      ensures this.disk == disk && fresh(synonyms) && Valid() && synonyms.table == map[]
      ensures filename == "" && !complete && !addSynonyms && uniquefacts == {}
    {
      this.disk := disk;
      synonyms := new SynonymTable();
      filename, complete, addSynonyms := "", false, false;
      uniquefacts, index := {}, map[];
    }

    ghost predicate Valid()
      reads this, synonyms, synonyms.table.Values
    {
      IsIndex(uniquefacts, index) && synonyms.Valid()
    }

    /** What an insertion may change besides the facts and their index. */
    ghost function SynonymFrame(): set<object>
      reads this, synonyms
    {
      var sets: set<object> := synonyms.table.Values;
      if addSynonyms then {synonyms} + sets else {}
    }

    /** `insert_synonym` */
    method InsertSynonym(fact: Xml)
      requires synonyms.Valid()
      modifies SynonymFrame()
      ensures synonyms.Valid() && fresh(SynonymFrame() - old(SynonymFrame()))
      ensures synonyms.pairs == old(synonyms.pairs) +
        if addSynonyms && IsSynonym(fact) then {(PrintText(Part(fact, "subject")), PrintText(Part(fact, "object")))}
        else {}
    {
      hide IsSynonym, Part, PrintText, Sound;
      if addSynonyms && IsSynonym(fact) {
        synonyms.Insert(PrintText(Part(fact, "subject")), PrintText(Part(fact, "object")));
      }
    }

    /** `insert_fact` */
    method InsertFact(fact: Xml)
      requires Valid()
      modifies `uniquefacts, `index, SynonymFrame()
      ensures Valid() && fresh(SynonymFrame() - old(SynonymFrame()))
      ensures uniquefacts == old(uniquefacts) + if IsSynonym(fact) then {} else {fact}
      ensures synonyms.pairs == old(synonyms.pairs) +
        if addSynonyms && IsSynonym(fact) then {(PrintText(Part(fact, "subject")), PrintText(Part(fact, "object")))}
        else {}
    {
      hide IsSynonym, Part, PrintText, Sound, IsIndex, Entered;
      if IsSynonym(fact) {
        InsertSynonym(fact);
        return;
      }
      uniquefacts := uniquefacts + {fact};
      ghost var was := index;
      EnterWords(fact);
      KeepsIndexed(old(uniquefacts), was, index, fact);
    }

    /** `to_disk` for all keys, as far as it stores facts. */
    method ToDisk()
      requires Valid()
      modifies disk
      ensures Written(old(disk.files), disk.files, index, filename, complete)
    {
      hide IsSynonym, HasKey, DiskKey, Sound, Written, IndexAt;
      var left := index.Keys;
      ghost var done: Index := map[];
      NothingWritten(disk.files, filename, complete);
      while left != {}
        invariant left <= index.Keys && done.Keys == index.Keys - left
        invariant forall k :: k in done ==> done[k] == index[k]
        invariant Written(old(disk.files), disk.files, done, filename, complete)
        decreases |left|
      {
        var found :| found in left;
        ghost var was := disk.files;
        StoreKey(found);
        WrittenBoth(old(disk.files), was, disk.files, done, found, index[found], filename, complete);
        done := done[found := index[found]];
        left := left - {found};
      }
      assert done == index;
    }

    /** One round of `to_disk`. */
    method StoreKey(found: string)
      requires found in index && DiskKey(found) == found
      modifies disk
      ensures Written(old(disk.files), disk.files, map[found := index[found]], filename, complete)
    {
      hide Printed, DiskKey, Written, StringsAt;
      var key := MakeKey(found);
      var id := FileId("index", key, filename);
      var start: set<string> := {};
      if !complete && id in disk.files {
        start := SetOf(disk.files[id]);
      }
      var strings := AddPrinted(index[found], start);
      var list := Listing(strings);
      ghost var was := disk.files;
      if filename != "" {
        disk.files := disk.files[id := list];
      }
      StartIs(was, found, filename, complete, start);
      KeyWritten(was, disk.files, found, index[found], filename, complete, list);
    }

    method InsertFacts(facts: seq<Xml>)
      requires Valid()
      modifies `uniquefacts, `index, SynonymFrame()
      ensures Valid() && fresh(SynonymFrame() - old(SynonymFrame()))
      ensures uniquefacts == old(uniquefacts) + NotSynonyms(AsSet(facts))
    {
      hide IsSynonym, IsIndex, Sound, Part, PrintText, NotSynonyms;
      NoneYet(facts);
      for n := 0 to |facts|
        invariant Valid() && uniquefacts == old(uniquefacts) + NotSynonyms(AsSet(facts[..n]))
        invariant fresh(SynonymFrame() - old(SynonymFrame()))
      {
        InsertFact(facts[n]);
        OneMore(facts, n);
      }
      assert facts[..|facts|] == facts;
    }

    /** `from_disk` of one index file: its strings are concatenated, tokenized and read. */
    method FromFile(id: FileId) returns (ok: bool)
      requires Valid() && !addSynonyms && id in disk.files
      modifies `uniquefacts, `index
      ensures Valid()
      ensures ok <==> Readable(disk.files[id])
      ensures uniquefacts == old(uniquefacts) + FactsIn(disk.files[id])
    {
      hide IsSynonym, IsIndex, Sound, Tokens, ReadFacts, Lines, NotSynonyms;
      var xmllist := disk.files[id];
      var instr := Append(xmllist);
      var prestr := OrderTags(instr, "");
      assert "" + Tokens('\0', instr) == Tokens('\0', instr);
      var facts;
      facts, ok := ReadFactsLoop(prestr);
      if ok {
        InsertFacts(facts);
      }
    }

    /** `get_facts` and `from_disk`: all index files of the word's key, in any order. */
    method GetFacts(word: string) returns (ok: bool)
      requires Valid() && !addSynonyms
      modifies `uniquefacts, `index
      ensures Valid()
      ensures ok <==> forall id :: id in Directory(disk.files, DiskKey(word)) ==> Readable(disk.files[id])
      ensures forall f :: f in uniquefacts <==>
                f in old(uniquefacts) || FoundUnder(disk.files, DiskKey(word), f)
    {
      hide IsSynonym, IsIndex, Sound, Readable, FactsIn;
      var key := MakeKey(word);
      ok := true;
      var dir := Directory(disk.files, key);
      var left := dir;
      while left != {}
        invariant left <= dir && Valid()
        invariant ok <==> forall id :: id in dir && id !in left ==> Readable(disk.files[id])
        invariant forall f :: f in uniquefacts <==>
                    f in old(uniquefacts) || exists id :: id in dir && id !in left && f in FactsIn(disk.files[id])
        decreases |left|
      {
        var id :| id in left;
        var read := FromFile(id);
        ok := ok && read;
        left := left - {id};
      }
    }

    /** The loop of `insert_fact` over the words of the fact. */
    method EnterWords(fact: Xml)
      modifies `index
      ensures Entered(old(index), index, fact, TreeWords(fact), |TreeWords(fact)|)
    {
      hide Entered, EligibleAt, DiskKey, Lower;
      var words := TreeWords(fact);
      TreeWordsNonempty(fact);
      var before := "";
      var n := 0;
      NothingEntered(index, fact, words);
      while n < |words|
        invariant 0 <= n <= |words|
        invariant before == if n == 0 then "" else Lower(words[n - 1])
        invariant Entered(old(index), index, fact, words, n)
      {
        ghost var was := index;
        assert words[n] in words;
        if words[n] != "" {
          var w := Lower(words[n]);
          KeyOfKey(words[n]);
          Eligible(words, n);
          if IndexWord(w) && IndexPair(before, w) {
            var key := MakeKey(w);
            assert IndexAt(index, key) + {fact} == if key in index then index[key] + {fact} else {fact};
            if key !in index {
              index := index[key := {fact}];
            } else {
              index := index[key := index[key] + {fact}];
            }
          }
          before := w;
        }
        EnterWord(old(index), was, index, fact, words, n);
        n := n + 1;
      }
    }
  }

  /** `to_disk` replaces the index files of one name, or adds to them. */
  ghost predicate Written(files: Files, after: Files, index: Index, filename: string, complete: bool) {
    && (forall key :: key in index && filename != "" ==>
          StringsAt(after, key, filename) ==
            Printed(index[key]) + if complete then {} else StringsAt(files, key, filename))
    && OthersKept(files, after, index.Keys, filename)
  }

  function FileAt(files: Files, id: FileId): Option {
    if id in files then Some(files[id]) else None
  }

  datatype Option = Some(list: seq<string>) | None

  ghost predicate OthersKept(files: Files, after: Files, keys: set<string>, filename: string) {
    forall id: FileId :: !(id.kind == "index" && id.file == filename && id.key in keys && filename != "") ==>
      FileAt(after, id) == FileAt(files, id)
  }

  lemma StringsKept(files: Files, after: Files, keys: set<string>, filename: string, key: string)
    requires OthersKept(files, after, keys, filename) && key !in keys
    ensures StringsAt(after, key, filename) == StringsAt(files, key, filename)
  {
    assert FileAt(after, FileId("index", key, filename)) == FileAt(files, FileId("index", key, filename));
  }

  lemma OthersKeptTwice(files: Files, was: Files, after: Files, done: set<string>, key: string, filename: string)
    requires OthersKept(files, was, done, filename) && OthersKept(was, after, {key}, filename)
    ensures OthersKept(files, after, done + {key}, filename)
  {
    hide FileAt;
  }

  lemma NothingWritten(files: Files, filename: string, complete: bool)
    ensures Written(files, files, map[], filename, complete)
  {
  }

  lemma StartIs(files: Files, key: string, filename: string, complete: bool, start: set<string>)
    requires var id := FileId("index", key, filename);
             start == if !complete && id in files then (set s | s in files[id]) else {}
    ensures start == if complete then {} else StringsAt(files, key, filename)
  {
  }

  lemma KeyWritten(was: Files, after: Files, key: string, facts: set<Xml>, filename: string, complete: bool,
                   list: seq<string>)
    requires (set s | s in list) == Printed(facts) + if complete then {} else StringsAt(was, key, filename)
    requires after == if filename != "" then was[FileId("index", key, filename) := list] else was
    ensures Written(was, after, map[key := facts], filename, complete)
  {
    hide Printed;
  }

  lemma WrittenBoth(files: Files, was: Files, after: Files, done: Index, key: string, facts: set<Xml>,
                    filename: string, complete: bool)
    requires Written(files, was, done, filename, complete) && key !in done
    requires Written(was, after, map[key := facts], filename, complete)
    ensures Written(files, after, done[key := facts], filename, complete)
  {
    hide Printed, OthersKept, StringsAt;
    assert done[key := facts].Keys == done.Keys + {key} && map[key := facts].Keys == {key};
    OthersKeptTwice(files, was, after, done.Keys, key, filename);
    if filename != "" {
      StringsKept(files, was, done.Keys, filename, key);
      forall k | k in done ensures StringsAt(after, k, filename) == StringsAt(was, k, filename) {
        StringsKept(was, after, {key}, filename, k);
      }
    }
  }

  ghost function NotSynonyms(facts: set<Xml>): set<Xml> {
    set f | f in facts && !IsSynonym(f)
  }

  lemma NoneYet(facts: seq<Xml>)
    ensures NotSynonyms(AsSet(facts[..0])) == {}
  {
  }

  lemma OneMore(facts: seq<Xml>, n: nat)
    requires n < |facts|
    ensures NotSynonyms(AsSet(facts[..n + 1])) ==
      NotSynonyms(AsSet(facts[..n])) + if IsSynonym(facts[n]) then {} else {facts[n]}
  {
    hide IsSynonym;
    assert facts[..n + 1] == facts[..n] + [facts[n]];
  }

  ghost function ReadBack(list: seq<string>): FactsResult {
    ReadFacts(Lines(Tokens('\0', Concat(list))), 0, [])
  }

  ghost predicate Readable(list: seq<string>) {
    ReadBack(list).Facts?
  }

  /** The facts that reading one index file adds. */
  ghost function FactsIn(list: seq<string>): set<Xml> {
    if Readable(list) then NotSynonyms(AsSet(ReadBack(list).facts)) else {}
  }

  function Directory(files: Files, key: string): set<FileId> {
    set id | id in files && id.kind == "index" && id.key == key
  }

  lemma NothingEntered(index: Index, f: Xml, words: seq<string>)
    ensures Entered(index, index, f, words, 0)
  {
  }

  lemma Eligible(words: seq<string>, i: nat)
    requires i < |words|
    ensures EligibleAt(words, i) <==>
              IndexWord(Lower(words[i])) && IndexPair(if i == 0 then "" else Lower(words[i - 1]), Lower(words[i]))
  {
  }

  /** The index says of every key what a scan of the facts says. */
  ghost predicate IsIndex(facts: set<Xml>, index: Index) {
    && (forall f :: f in facts ==> !IsSynonym(f))
    && (forall key, f :: f in IndexAt(index, key) <==> f in facts && HasKey(f, key))
    && (forall key :: key in index ==> DiskKey(key) == key)
  }

  lemma KeepsIndexed(facts: set<Xml>, index: Index, after: Index, f: Xml)
    requires IsIndex(facts, index) && !IsSynonym(f)
    requires Entered(index, after, f, TreeWords(f), |TreeWords(f)|)
    ensures IsIndex(facts + {f}, after)
  {
    hide IsSynonym, TreeWords, HasKeyIn, IndexAt, DiskKey;
    assert TreeWords(f)[..|TreeWords(f)|] == TreeWords(f);
  }

  // ---- the index refines a scan ----------------------------------------------------------------

  lemma ScanIsIndexed(facts: set<Xml>, index: Index, key: string)
    requires IsIndex(NotSynonyms(facts), index)
    ensures Scan(facts, key) == IndexAt(index, key)
  {
    hide IsSynonym, HasKey, DiskKey, IndexAt;
    forall f ensures f in Scan(facts, key) <==> f in IndexAt(index, key) {
      assert f in NotSynonyms(facts) <==> f in facts && !IsSynonym(f);
    }
  }

  /** Storing facts under a new name keeps the disk in step with the facts stored. */
  lemma WrittenReflects(files: Files, after: Files, stored: map<string, set<Xml>>, filename: string,
                        facts: set<Xml>, index: Index)
    requires Reflects(files, stored) && filename != "" && filename !in stored
    requires IsIndex(NotSynonyms(facts), index) && Written(files, after, index, filename, true)
    ensures Reflects(after, stored[filename := facts])
  {
    hide IsSynonym, HasKey, PrintFact, DiskKey, Printed;
    var now := stored[filename := facts];
    forall key, file ensures StringsAt(after, key, file) == Printed(Scan(StoredAs(now, file), key)) {
      assert StringsAt(files, key, file) == Printed(Scan(StoredAs(stored, file), key));
      if file == filename {
        ScanIsIndexed(facts, index, key);
        if key !in index {
          assert Scan({}, key) == {} && StringsAt(after, key, file) == StringsAt(files, key, file);
        } else {
          assert Printed(index[key]) + {} == Printed(index[key]);
        }
      }
    }
  }

  lemma NothingStored()
    ensures Reflects(map[], map[])
  {
  }

  /** An index file gives back exactly what a scan of the facts of its name finds. */
  lemma FileIsScan(files: Files, stored: map<string, set<Xml>>, id: FileId)
    requires Reflects(files, stored) && AllNormal(stored) && id in files && id.kind == "index"
    ensures Readable(files[id]) && FactsIn(files[id]) == Scan(StoredAs(stored, id.file), id.key)
  {
    hide IsSynonym, HasKey, PrintFact, Tokens, Lines, ReadFacts, NormalFact, Printed;
    var facts := Scan(StoredAs(stored, id.file), id.key);
    assert StringsAt(files, id.key, id.file) == Printed(facts) && id == FileId("index", id.key, id.file);
    ListingIsRead(files[id], facts);
    assert NotSynonyms(facts) == facts;
  }

  ghost predicate FoundUnder(files: Files, key: string, f: Xml) {
    exists id :: id in Directory(files, key) && f in FactsIn(files[id])
  }

  ghost predicate ScanFinds(stored: map<string, set<Xml>>, key: string, f: Xml) {
    exists file :: file in stored && f in Scan(stored[file], key)
  }

  /** Reading all files of a key finds exactly what a scan of all stored facts finds. */
  lemma IndexRefinesScan(files: Files, stored: map<string, set<Xml>>, key: string)
    requires Reflects(files, stored) && AllNormal(stored)
    ensures forall id :: id in Directory(files, key) ==> Readable(files[id])
    ensures forall f :: FoundUnder(files, key, f) <==> ScanFinds(stored, key, f)
  {
    hide Readable, FactsIn, Printed, Scan;
    forall id | id in Directory(files, key)
      ensures Readable(files[id]) && FactsIn(files[id]) == Scan(StoredAs(stored, id.file), key) {
      FileIsScan(files, stored, id);
    }
    forall f, file | file in stored && f in Scan(stored[file], key)
      ensures FoundUnder(files, key, f) {
      var id := FileId("index", key, file);
      assert StringsAt(files, key, file) == Printed(Scan(StoredAs(stored, file), key));
      PrintedMember(Scan(stored[file], key), f);
      assert id in Directory(files, key);
    }
    forall f, id | id in Directory(files, key) && f in FactsIn(files[id])
      ensures ScanFinds(stored, key, f) {
      ScanNothing(key);
      assert id.file in stored;
    }
  }

  lemma PrintedMember(facts: set<Xml>, f: Xml)
    requires f in facts
    ensures PrintFact(f) in Printed(facts)
  {
  }

  lemma ScanNothing(key: string)
    ensures Scan({}, key) == {}
  {
  }

  /** `prepare` for one source text: a new database object reads it and writes its index. */
  method Prepare(disk: Disk, filename: string, indata: string, ghost stored: map<string, set<Xml>>) returns (ok: bool)
    requires Reflects(disk.files, stored) && filename != "" && filename !in stored
    modifies disk
    ensures var r := ReadFacts(Lines(Tokens('\0', indata)), 0, []);
            ok == r.Facts? && Reflects(disk.files, if ok then stored[filename := AsSet(r.facts)] else stored)
  {
    hide IsSynonym, IsIndex, Sound, Tokens, ReadFacts, Lines, Reflects, Written;
    var predata := OrderTags(indata, "");
    assert "" + Tokens('\0', indata) == Tokens('\0', indata);
    var facts;
    facts, ok := ReadFactsLoop(predata);
    if ok {
      var db := new DiskDb(disk);
      db.complete, db.filename, db.addSynonyms := true, filename, true;
      db.InsertFacts(facts);
      ghost var files := disk.files;
      db.ToDisk();
      assert {} + NotSynonyms(AsSet(facts)) == NotSynonyms(AsSet(facts));
      WrittenReflects(files, disk.files, stored, filename, AsSet(facts), db.index);
    }
  }

  // ---- lookups in plain terms -------------------------------------------------------------------

  /** A capital letter counts as its small one, and missing letters as '_'. */
  function StartChar(w: string, i: nat): char {
    if i >= |w| then '_'
    else if 'A' <= w[i] <= 'Z' then ('a' as int + (w[i] as int - 'A' as int)) as char
    else w[i]
  }

  /** The words agree in their first four letters. */
  predicate SameStart(a: string, b: string) {
    forall i: nat :: i < 4 ==> StartChar(a, i) == StartChar(b, i)
  }

  lemma KeyChars(w: string)
    ensures forall i: nat :: i < 4 ==> DiskKey(w)[i] == StartChar(w, i)
  {
  }

  lemma KeysAgree(a: string, b: string)
    ensures DiskKey(a) == DiskKey(b) <==> SameStart(a, b)
  {
    hide DiskKey, StartChar;
    KeyChars(a);
    KeyChars(b);
    if SameStart(a, b) {
      forall i: nat | i < 4 ensures DiskKey(a)[i] == DiskKey(b)[i] {
        assert StartChar(a, i) == StartChar(b, i);
      }
    }
    if DiskKey(a) == DiskKey(b) {
      forall i: nat | i < 4 ensures StartChar(a, i) == StartChar(b, i) {
        assert DiskKey(a)[i] == DiskKey(b)[i];
      }
    }
  }

  /** Articles, "in", "von" and "verb" are not looked up, nor is "name" after "(a)". */
  predicate Counts(words: seq<string>, i: nat)
    requires i < |words|
  {
    && Lower(words[i]) !in {"a", "the", "in", "verb", "von", "der", "die", "das", "ein", "eine"}
    && !(Lower(words[i]) == "name" && i > 0 && Lower(words[i - 1]) == "(a)")
  }

  /** The fact is not a synonym and has a word that counts and starts like `word`. */
  ghost predicate Wanted(f: Xml, word: string) {
    var ws := TreeWords(f);
    !IsSynonym(f) && exists i :: 0 <= i < |ws| && Counts(ws, i) && SameStart(ws[i], word)
  }

  lemma WantedIsIndexed(f: Xml, word: string)
    ensures Wanted(f, word) <==> !IsSynonym(f) && HasKey(f, DiskKey(word))
  {
    hide IsSynonym, DiskKey, SameStart, TreeWords, Lower;
    var ws := TreeWords(f);
    forall i | 0 <= i < |ws|
      ensures Counts(ws, i) == EligibleAt(ws, i) && (SameStart(ws[i], word) <==> DiskKey(ws[i]) == DiskKey(word)) {
      KeysAgree(ws[i], word);
    }
  }

  lemma ScanFindsWanted(stored: map<string, set<Xml>>, word: string, f: Xml)
    ensures ScanFinds(stored, DiskKey(word), f) <==>
              exists file :: file in stored && f in stored[file] && Wanted(f, word)
  {
    hide IsSynonym, DiskKey, HasKey, Wanted;
    WantedIsIndexed(f, word);
  }

  /** A fact with a text that is one ordinary word is found by every word that starts like it. */
  lemma OneWordTextIsWanted(f: Xml, w: string, word: string)
    requires HasLeaf(f, w) && WordText(w) && w != "" && !IsSynonym(f) && SameStart(w, word)
    requires Lower(w) !in {"1", "name", "a", "the", "in", "verb", "von", "der", "die", "das", "ein", "eine"}
    ensures Wanted(f, word)
  {
    hide IsSynonym, SameStart, TreeWords, HasLeaf, WordText;
    assert Lower("1") == "1";
    WordOfText(w);
    TreeWordsAreLeafWords(f, w);
    assert w in TextWords(w) && w in TreeWords(f);
    var i :| 0 <= i < |TreeWords(f)| && TreeWords(f)[i] == w;
    assert Counts(TreeWords(f), i);
  }

  /** `find_by_word`, before synonyms are put into the facts found. */
  method FindByWord(disk: Disk, word: string, ghost stored: map<string, set<Xml>>) returns (facts: set<Xml>)
    requires Reflects(disk.files, stored) && AllNormal(stored)
    ensures forall f :: f in facts <==> exists file :: file in stored && f in stored[file] && Wanted(f, word)
  {
    hide IsSynonym, IsIndex, Sound, Reflects, AllNormal, Readable, FactsIn, Scan, DiskKey, Wanted, ScanFinds;
    var db := new DiskDb(disk);
    var ok := db.GetFacts(word);
    IndexRefinesScan(disk.files, stored, DiskKey(word));
    facts := db.uniquefacts;
    forall f ensures f in facts <==> exists file :: file in stored && f in stored[file] && Wanted(f, word) {
      ScanFindsWanted(stored, word, f);
    }
  }
}
