/** The query cache: nine slots of recorded rows, replayed for later searches with equal
    hashes, and thrown away all at once when they are full. */
module QueryCache {

  const QUERY_CACHE_SIZE: nat := 9
  const TOOMUCH: int := -7
  const COLUMNS: nat := 10

  /** A column of a row, which may be NULL. */
  datatype Field = Text(text: string) | Null

  type Row = r: seq<Field> | |r| == COLUMNS witness seq(COLUMNS, _ => Null)

  predicate Filled(f: Field) { f.Text? && f.text != "" }

  /** The callback skips rows without a verb, and rows with nothing else. */
  predicate Usable(row: Row) {
    Filled(row[1]) && (Filled(row[2]) || Filled(row[3]) || Filled(row[4]) || Filled(row[5]))
  }

  function OrElse(f: Field, s: string): string { if f.Text? then f.text else s }

  function Truth(f: Field): real {
    if Filled(f) && f.text[0] == '1' then 1.0
    else if Filled(f) && |f.text| >= 2 && (|f.text| == 2 || f.text[2] != '0') then 0.5
    else 0.0
  }

  /** A fact as it is put together from a row; `to_number` and `divide_words` are left to
      the reader of its texts. */
  datatype Fact = Fact(pk: string, verbs: string, subjects: string, objects: string, adverbs: string,
                       questionword: string, filename: string, line: string, truth: real, onlyLogic: bool)

  function FactOf(row: Row): Fact {
    Fact(OrElse(row[0], "0"), OrElse(row[1], ""), OrElse(row[2], ""), OrElse(row[3], ""), OrElse(row[4], ""),
         OrElse(row[5], ""), OrElse(row[6], ""), OrElse(row[7], ""), Truth(row[8]),
         Filled(row[9]) && row[9].text[0] == '1')
  }

  // ---- hashes -----------------------------------------------------------------------------

  type Words = ws: seq<string> | forall w :: w in ws ==> w != ""

  function Weight(k: nat): int { if k % 3 == 0 then 3 else if k % 3 == 1 then 7 else 11 }

  function WordHash(w: string, k: nat): int
    requires k <= |w|
    decreases |w| - k
  {
    if k == |w| then 0 else w[k] as int * Weight(k) + WordHash(w, k + 1)
  }

  datatype Hashes = Hashes(n1: int, n2: int, n3: int)

  /** `hashes` of the distinct words of a query. */
  function HashesOf(words: Words): (h: Hashes)
    ensures h.n2 >= |words|
  {
    if words == [] then Hashes(0, 0, 0)
    else
      var h := HashesOf(words[1..]);
      assert words[0] in words;
      Hashes(words[0][0] as int + h.n1, |words[0]| + h.n2, WordHash(words[0], 0) + h.n3)
  }

  predicate Recordable(h: Hashes) { h.n1 != 0 || h.n2 != 0 || h.n3 != 0 }

  /** What the lookup compares: the third hash is left out. */
  predicate Matches(a: Hashes, b: Hashes) { a.n1 == b.n1 && a.n2 == b.n2 }

  // ---- one search on values ------------------------------------------------------------------

  datatype Entry = Entry(hashes: Hashes, rows: seq<Row>)

  /** How many facts still fit. */
  function Room(limit: nat, start: nat): (room: nat)
    ensures room <= limit
  {
    if start >= limit then 0 else limit - start
  }

  function Take<T>(s: seq<T>, n: nat): (r: seq<T>)
    ensures |r| <= n
  {
    if n < |s| then s[..n] else s
  }

  function UsableRows(rows: seq<Row>): (r: seq<Row>) {
    if rows == [] then [] else (if Usable(rows[0]) then [rows[0]] else []) + UsableRows(rows[1..])
  }

  function FactsOf(rows: seq<Row>): (facts: seq<Fact>)
    ensures |facts| == |rows| && forall i :: 0 <= i < |rows| ==> facts[i] == FactOf(rows[i])
  {
    seq(|rows|, i requires 0 <= i < |rows| => FactOf(rows[i]))
  }

  /** What executing the query appends. */
  function Executed(rows: seq<Row>, room: nat): seq<Fact> {
    FactsOf(Take(UsableRows(rows), room))
  }

  /** The last entry that matches, -1 if there is none. */
  function Find(entries: seq<Entry>, h: Hashes): (i: int)
    ensures -1 <= i < |entries|
    ensures i >= 0 ==> Matches(entries[i].hashes, h)
    ensures forall j :: i < j < |entries| ==> !Matches(entries[j].hashes, h)
  {
    if entries == [] then -1
    else if Matches(entries[|entries| - 1].hashes, h) then |entries| - 1
    else Find(entries[..|entries| - 1], h)
  }

  /** A lookup in a full table empties it. */
  function Looked(entries: seq<Entry>): (r: seq<Entry>)
    ensures |r| < QUERY_CACHE_SIZE
  {
    if |entries| >= QUERY_CACHE_SIZE then [] else entries
  }

  datatype Outcome = Outcome(entries: seq<Entry>, appended: seq<Fact>)

  /** One search: the cache afterwards and what is appended. */
  function Search(entries: seq<Entry>, h: Hashes, rows: seq<Row>, room: nat): (r: Outcome)
    ensures |entries| <= QUERY_CACHE_SIZE ==> |r.entries| <= QUERY_CACHE_SIZE
  {
    var kept := Looked(entries);
    var i := Find(kept, h);
    if i >= 0 then Outcome(kept, FactsOf(Take(kept[i].rows, room)))
    else
      Outcome(kept + [Entry(h, if Recordable(h) then Take(UsableRows(rows), room) else [])], Executed(rows, room))
  }

  // ---- runs -------------------------------------------------------------------------------------

  /** A search for words, with `limit - start` places left in the caller's buffer. */
  datatype Query = Query(words: Words, limit: nat, start: nat)

  /** The results of a run on a database that does not change. */
  function Run(entries: seq<Entry>, queries: seq<Query>, db: Words -> seq<Row>): (r: seq<seq<Fact>>)
    ensures |r| == |queries|
    decreases |queries|
  {
    if queries == [] then []
    else
      var q := queries[0];
      var step := Search(entries, HashesOf(q.words), db(q.words), Room(q.limit, q.start));
      [step.appended] + Run(step.entries, queries[1..], db)
  }

  function RoomOf(q: Query): nat { Room(q.limit, q.start) }

  /** What executing the query of a search would append. */
  function Answer(q: Query, db: Words -> seq<Row>): seq<Fact> {
    Executed(db(q.words), RoomOf(q))
  }

  /** What a search records when it executes its query. */
  function Recorded(q: Query, db: Words -> seq<Row>): seq<Row> {
    if Recordable(HashesOf(q.words)) then Take(UsableRows(db(q.words)), RoomOf(q)) else []
  }

  ghost predicate SameHashes(a: Query, b: Query) {
    Matches(HashesOf(a.words), HashesOf(b.words))
  }

  /** What a search for `a` records is the right answer to a search for `b`. */
  ghost predicate Serves(a: Query, b: Query, db: Words -> seq<Row>) {
    FactsOf(Take(Recorded(a, db), RoomOf(b))) == Answer(b, db)
  }

  /** Wherever the compared hashes agree, one search can serve the other. */
  ghost predicate AllServe(qs: set<Query>, db: Words -> seq<Row>) {
    forall a, b :: a in qs && b in qs && SameHashes(a, b) ==> Serves(a, b, db)
  }

  /** Every entry holds the right answer to all the searches that would find it. */
  ghost predicate Exact(entries: seq<Entry>, qs: set<Query>, db: Words -> seq<Row>) {
    forall e, b :: e in entries && b in qs && Matches(e.hashes, HashesOf(b.words)) ==>
      FactsOf(Take(e.rows, RoomOf(b))) == Answer(b, db)
  }

  /** The cache cannot be seen: every search appends what executing its query would. */
  ghost predicate Transparent(entries: seq<Entry>, queries: seq<Query>, db: Words -> seq<Row>) {
    forall i :: 0 <= i < |queries| ==> Run(entries, queries, db)[i] == Answer(queries[i], db)
  }

  /** Only a query without words has no hash to record under. */
  lemma UnrecordableIffNoWords(words: Words)
    ensures !Recordable(HashesOf(words)) <==> words == []
  {
  }

  /** A hit appends what executing would exactly when the recording search had room for
      everything this search can take, or when nothing was to be recorded. */
  lemma HitExactIff(h: Hashes, rows: seq<Row>, recordedRoom: nat, room: nat)
    ensures var recorded := Search([], h, rows, recordedRoom).entries[0].rows;
            FactsOf(Take(recorded, room)) == Executed(rows, room) <==>
              |Take(UsableRows(rows), room)| <= if Recordable(h) then recordedRoom else 0
  {
  }

  lemma StepExact(entries: seq<Entry>, q: Query, qs: set<Query>, db: Words -> seq<Row>)
    requires q in qs && Exact(entries, qs, db) && AllServe(qs, db)
    ensures var step := Search(entries, HashesOf(q.words), db(q.words), RoomOf(q));
            step.appended == Answer(q, db) && Exact(step.entries, qs, db)
  {
    hide UsableRows, HashesOf, FactsOf, Room, Take, Recordable;
    var h := HashesOf(q.words);
    var kept := Looked(entries);
    assert forall e :: e in kept ==> e in entries;
    var i := Find(kept, h);
    var step := Search(entries, h, db(q.words), RoomOf(q));
    if i >= 0 {
      assert kept[i] in entries;
    } else {
      forall e, b | e in step.entries && b in qs && Matches(e.hashes, HashesOf(b.words))
        ensures FactsOf(Take(e.rows, RoomOf(b))) == Answer(b, db) {
        if e !in kept {
          assert e == Entry(h, Recorded(q, db)) && SameHashes(q, b);
          assert Serves(q, b, db);
        }
      }
    }
  }

  lemma {:induction false} RunExact(entries: seq<Entry>, queries: seq<Query>, qs: set<Query>, db: Words -> seq<Row>)
    requires Exact(entries, qs, db) && AllServe(qs, db) && forall q :: q in queries ==> q in qs
    ensures Transparent(entries, queries, db)
    decreases |queries|
  {
    hide Exact, AllServe, UsableRows, HashesOf, Search, Answer, Room;
    if queries != [] {
      var q := queries[0];
      StepExact(entries, q, qs, db);
      var step := Search(entries, HashesOf(q.words), db(q.words), RoomOf(q));
      RunExact(step.entries, queries[1..], qs, db);
      forall i | 0 <= i < |queries| ensures Run(entries, queries, db)[i] == Answer(queries[i], db) {
        if i > 0 { assert queries[i] == queries[1..][i - 1]; }
      }
    }
  }

  /** A search for `b` right after one for `a` with the same compared hashes is exact exactly
      when the one serves the other. */
  lemma PairServed(a: Query, b: Query, db: Words -> seq<Row>)
    requires SameHashes(a, b)
    ensures Run([], [a, b], db)[1] == Answer(b, db) <==> Serves(a, b, db)
  {
    hide UsableRows, HashesOf, FactsOf, Room, Take, Recordable;
    var step := Search([], HashesOf(a.words), db(a.words), RoomOf(a));
    assert [a, b][1..] == [b] && [b][1..] == [];
    assert step.entries == [Entry(HashesOf(a.words), Recorded(a, db))];
    assert Find(step.entries, HashesOf(b.words)) == 0;
    assert Run([], [a, b], db)[1] == Run(step.entries, [b], db)[0];
  }

  /** Exactly when the cache, with its ignored third hash, is harmless: no run over some
      searches, through hits, misses and flushes, shows it, if and only if among those whose
      compared hashes agree what one records is the right answer to the other. */
  lemma TransparentIffServed(qs: set<Query>, db: Words -> seq<Row>)
    ensures AllServe(qs, db) <==>
              forall queries: seq<Query> :: (forall q :: q in queries ==> q in qs) ==> Transparent([], queries, db)
  {
    hide Run, Serves, SameHashes, Answer;
    if AllServe(qs, db) {
      forall queries: seq<Query> | forall q :: q in queries ==> q in qs ensures Transparent([], queries, db) {
        RunExact([], queries, qs, db);
      }
    } else {
      var a, b :| a in qs && b in qs && SameHashes(a, b) && !Serves(a, b, db);
      PairServed(a, b, db);
      assert !Transparent([], [a, b], db);
    }
  }

  /** With equal room, serving means having the same answer. */
  lemma ServesIffSameAnswer(a: Query, b: Query, db: Words -> seq<Row>)
    requires RoomOf(a) == RoomOf(b) && UsableRows(db([])) == []
    ensures Serves(a, b, db) <==> Answer(a, db) == Answer(b, db)
  {
    hide UsableRows, HashesOf;
    UnrecordableIffNoWords(a.words);
  }

  /** Over any run of searches with the same room left, the cache cannot be seen where the
      two compared hashes tell queries with different answers apart. */
  lemma CacheTransparent(entries: seq<Entry>, queries: seq<Query>, db: Words -> seq<Row>, room: nat)
    requires UsableRows(db([])) == [] && forall q :: q in queries ==> RoomOf(q) == room
    requires forall a, b :: a in queries && b in queries && SameHashes(a, b) ==> Answer(a, db) == Answer(b, db)
    requires Exact(entries, (set q | q in queries), db)
    ensures Transparent(entries, queries, db)
  {
    hide UsableRows, SameHashes, Answer, RoomOf, Serves, Exact, Transparent;
    var qs := set q | q in queries;
    forall a, b | a in qs && b in qs && SameHashes(a, b) ensures Serves(a, b, db) {
      ServesIffSameAnswer(a, b, db);
    }
    RunExact(entries, queries, qs, db);
  }

  /** A search right after one with equal compared hashes gets the other query's facts. */
  lemma PairExactIff(a: Query, b: Query, db: Words -> seq<Row>)
    requires Matches(HashesOf(a.words), HashesOf(b.words)) && UsableRows(db([])) == []
    requires Room(a.limit, a.start) == Room(b.limit, b.start)
    ensures var room := Room(a.limit, a.start);
            Run([], [a, b], db)[1] == Executed(db(b.words), room) <==>
              Executed(db(a.words), room) == Executed(db(b.words), room)
  {
    hide UsableRows, HashesOf, Run, Serves;
    PairServed(a, b, db);
    ServesIffSameAnswer(a, b, db);
  }

  /** The hashes of words are summed up. */
  lemma {:induction false} HashesAdd(a: Words, b: Words)
    ensures var g, h := HashesOf(a), HashesOf(b);
            HashesOf(a + b) == Hashes(g.n1 + h.n1, g.n2 + h.n2, g.n3 + h.n3)
    decreases |a|
  {
    hide WordHash;
    if a == [] {
      assert a + b == b;
    } else {
      HashesAdd(a[1..], b);
      assert (a + b)[1..] == a[1..] + b && (a + b)[0] == a[0];
    }
  }

  /** Single words match exactly when they start with the same letter and are equally long; the
      order of several words makes no difference, and a word that matches another can stand for
      it in any query. */
  lemma WordsMatchIff(a: string, b: string, before: Words, after: Words)
    requires a != "" && b != ""
    ensures Matches(HashesOf([a]), HashesOf([b])) <==> a[0] == b[0] && |a| == |b|
    ensures Matches(HashesOf(before + after), HashesOf(after + before))
    ensures Matches(HashesOf(before + [a] + after), HashesOf(before + [b] + after)) <==>
              a[0] == b[0] && |a| == |b|
  {
    assert [a][1..] == [] && [b][1..] == [];
    var x: Words, y: Words := [a], [b];
    assert HashesOf(x) == Hashes(a[0] as int, |a|, WordHash(a, 0));
    assert HashesOf(y) == Hashes(b[0] as int, |b|, WordHash(b, 0));
    hide HashesOf, WordHash;
    HashesAdd(before, after);
    HashesAdd(after, before);
    HashesAdd(before, x);
    HashesAdd(before, y);
    HashesAdd(before + x, after);
    HashesAdd(before + y, after);
  }

  /** A fact has the texts of the seven columns from the verb on, in their order. */
  lemma FactColumns(row: Row)
    ensures var f := FactOf(row);
            var texts := [f.verbs, f.subjects, f.objects, f.adverbs, f.questionword, f.filename, f.line];
            forall i :: 0 <= i < 7 ==> texts[i] == if row[i + 1].Text? then row[i + 1].text else ""
  {
  }

  /** The truth is 1 for texts that start with '1', 0 for other short ones and for those with a '0'
      after their first two characters, and a half in between. */
  lemma TruthOfText(first: char, rest: string)
    ensures first == '1' ==> Truth(Text([first] + rest)) == 1.0
    ensures first != '1' ==>
      Truth(Text([first] + rest)) == if rest == "" || (|rest| > 1 && rest[1] == '0') then 0.0 else 0.5
    ensures Truth(Null) == Truth(Text("")) == 0.0
  {
    assert |rest| > 1 ==> ([first] + rest)[2] == rest[1];
  }

  /** A row without a verb, or with nothing but a verb, changes nothing; every other one adds a fact. */
  lemma RowCounts(before: seq<Row>, row: Row, after: seq<Row>)
    ensures UsableRows(before + [row] + after) ==
      UsableRows(before) +
      (if row[1] in {Null, Text("")} || (forall i :: 2 <= i <= 5 ==> row[i] in {Null, Text("")}) then [] else [row]) +
      UsableRows(after)
  {
    hide UsableRows;
    UsableConcat(before + [row], after);
    UsableConcat(before, [row]);
    UsableOne(row);
    forall i | 1 <= i <= 5 ensures row[i] in {Null, Text("")} <==> !Filled(row[i]) {
    }
    assert (forall i :: 2 <= i <= 5 ==> row[i] in {Null, Text("")}) <==>
             !Filled(row[2]) && !Filled(row[3]) && !Filled(row[4]) && !Filled(row[5]);
  }

  /** The third hash would tell such queries apart: "ab" and "ac" differ in nothing else. */
  lemma ThirdHashIgnored()
    ensures Matches(HashesOf(["ab"]), HashesOf(["ac"])) && HashesOf(["ab"]).n3 != HashesOf(["ac"]).n3
  {
  }

  /** The cache holds nine queries: a search finds all of fewer, and the one after the ninth starts
      from an empty cache. */
  lemma NineQueries(entries: seq<Entry>, h: Hashes, rows: seq<Row>, room: nat)
    requires forall e :: e in entries ==> !Matches(e.hashes, h)
    ensures |entries| < 9 ==>
      |Search(entries, h, rows, room).entries| == |entries| + 1 && entries <= Search(entries, h, rows, room).entries
    ensures |entries| >= 9 ==> |Search(entries, h, rows, room).entries| == 1
  {
    hide UsableRows, Matches, Recordable;
  }

  // ---- rows one at a time ----------------------------------------------------------------------

  lemma {:induction false} UsableConcat(a: seq<Row>, b: seq<Row>)
    ensures UsableRows(a + b) == UsableRows(a) + UsableRows(b)
    decreases |a|
  {
    hide Usable;
    if a == [] {
      assert a + b == b;
    } else {
      UsableConcat(a[1..], b);
      var head := if Usable(a[0]) then [a[0]] else [];
      assert (a + b)[1..] == a[1..] + b && (a + b)[0] == a[0];
      assert UsableRows(a + b) == head + UsableRows(a[1..] + b);
      assert head + (UsableRows(a[1..]) + UsableRows(b)) == (head + UsableRows(a[1..])) + UsableRows(b);
    }
  }

  lemma UsableOne(row: Row)
    ensures UsableRows([row]) == if Usable(row) then [row] else []
  {
    assert [row][1..] == [];
  }

  lemma NothingTaken(rows: seq<Row>, room: nat)
    ensures UsableRows(rows[..0]) == [] && FactsOf([]) == []
  {
  }

  /** What one more row adds to the rows taken; nothing comes after the room is used up. */
  lemma OneRowMore(rows: seq<Row>, n: nat, room: nat)
    requires n < |rows|
    ensures var got := Take(UsableRows(rows[..n]), room);
            Take(UsableRows(rows[..n + 1]), room) == got + if |got| < room && Usable(rows[n]) then [rows[n]] else []
    ensures |Take(UsableRows(rows[..n]), room)| >= room ==>
              Take(UsableRows(rows), room) == Take(UsableRows(rows[..n]), room)
  {
    hide Usable, UsableRows;
    assert rows[..n + 1] == rows[..n] + [rows[n]] && rows == rows[..n] + rows[n..];
    UsableConcat(rows[..n], [rows[n]]);
    UsableConcat(rows[..n], rows[n..]);
    UsableOne(rows[n]);
  }

  lemma FactsConcat(a: seq<Row>, b: seq<Row>)
    ensures FactsOf(a + b) == FactsOf(a) + FactsOf(b)
  {
  }

  /** Recorded rows are usable, so that a replay skips none. */
  lemma {:induction false} UsableAgain(rows: seq<Row>)
    ensures forall i :: 0 <= i < |UsableRows(rows)| ==> Usable(UsableRows(rows)[i])
    decreases |rows|
  {
    if rows != [] { UsableAgain(rows[1..]); }
  }
}
