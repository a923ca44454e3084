/** The table of interned words: buckets by the first two letters, each a growing array.
    A word has one record for good: every text is looked up before a record is made, and
    records stay where they are when their bucket grows. */
module WordTable {

  const WRONG: int := 27
  const SIDE: nat := 29

  /** The macro `n`: 'a' to 'z' and the character after 'z' have a number, others are WRONG. */
  function Slot(c: char): (i: int)
    ensures 1 <= i <= WRONG
  {
    var i := 1 - 'a' as int + c as int;
    if i <= 0 then WRONG else if i > 27 then WRONG else i
  }

  function Bucket(name: string): (b: (int, int))
    ensures 1 <= b.0 <= WRONG && 1 <= b.1 <= WRONG
  {
    (if |name| >= 1 then Slot(name[0]) else WRONG, if |name| >= 2 then Slot(name[1]) else WRONG)
  }

  /** What decides about the bucket: a small letter, a character that is none, or nothing. */
  predicate SameLetter(a: string, b: string, i: nat) {
    var x, y := i < |a| && 'a' <= a[i] <= 'z', i < |b| && 'a' <= b[i] <= 'z';
    if x || y then x && y && a[i] == b[i] else true
  }

  /** Names share a bucket exactly when they agree in their first two places, where everything
      that is not a small letter is the same. */
  lemma BucketsShared(a: string, b: string)
    ensures Bucket(a) == Bucket(b) <==> SameLetter(a, b, 0) && SameLetter(a, b, 1)
  {
  }

  class WordRecord {
    const name: string
    const length: nat

    constructor (name: string)
      ensures this.name == name && length == |name|
    {
      this.name, length := name, |name|;
    }
  }

  /** A list of pointers in `|list|` allocated places, of which `size` are in use. */
  class WordList {
    var size: nat
    var list: seq<WordRecord?>
    var allocatedUntil: nat
    ghost var words: seq<WordRecord>

    constructor ()
      ensures Valid() && words == []
    {
      size, list, allocatedUntil := 0, [], 0;
      words := [];
    }

    ghost predicate Valid()
      reads this
    {
      && size == |words| && (list == [] <==> size == 0)
      && (list != [] ==> size <= allocatedUntil && |list| == allocatedUntil + 1)
      && (forall g :: 0 <= g < size ==> list[g] == words[g] && words[g].length == |words[g].name|)
      && (forall g, h :: 0 <= g < h < size ==> words[g].name != words[h].name)
    }

    /** The search of `disk_get_word`. */
    method Find(name: string) returns (w: WordRecord?)
      requires Valid()
      ensures w == null <==> forall r :: r in words ==> r.name != name
      ensures w != null ==> w in words && w.name == name
    {
      if list == [] {
        return null;
      }
      var g := 0;
      while g < size
        invariant 0 <= g <= size && forall h :: 0 <= h < g ==> words[h].name != name
      {
        if |name| == list[g].length && list[g].name == name {
          return list[g];
        }
        g := g + 1;
      }
      return null;
    }

    /** The insertion of `disk_set_word`. */
    method Append(name: string) returns (w: WordRecord)
      requires Valid() && forall r :: r in words ==> r.name != name
      modifies this
      ensures Valid() && fresh(w) && w.name == name && words == old(words) + [w]
      ensures allocatedUntil ==
        if old(size) == 0 then 10
        else if old(size) < old(allocatedUntil) then old(allocatedUntil)
        else old(allocatedUntil) + 10
    {
      if size == 0 {
        list := Places(11);
        allocatedUntil := 10;
      } else if size >= allocatedUntil {
        allocatedUntil := allocatedUntil + 10;
        list := list + Places(allocatedUntil + 1 - |list|);
      }
      w := new WordRecord(name);
      list := list[size := w];
      size := size + 1;
      words := words + [w];
    }
  }

  /** Newly allocated places. */
  function Places(n: nat): (r: seq<WordRecord?>)
    ensures |r| == n
  {
    seq(n, _ => null)
  }

  predicate InTable(b: (int, int)) { 1 <= b.0 <= WRONG && 1 <= b.1 <= WRONG }

  type Lists = map<(int, int), WordList>

  type Buckets = map<(int, int), seq<WordRecord>>

  ghost function WordsIn(lists: Lists): Buckets
    reads lists.Values
  {
    map b | b in lists :: lists[b].words
  }

  /** Each bucket holds exactly the words of its two letters. */
  ghost predicate Holds(buckets: Buckets, records: map<string, WordRecord>) {
    && (forall name :: name in records ==>
          name != "" && records[name].name == name && Bucket(name) in buckets &&
          records[name] in buckets[Bucket(name)])
    && (forall b, w :: b in buckets && w in buckets[b] ==>
          Bucket(w.name) == b && w.name in records && records[w.name] == w)
  }

  lemma HoldsOneMore(buckets: Buckets, records: map<string, WordRecord>, w: WordRecord)
    requires Holds(buckets, records) && w.name != "" && w.name !in records && Bucket(w.name) in buckets
    ensures var b := Bucket(w.name); Holds(buckets[b := buckets[b] + [w]], records[w.name := w])
  {
    hide Bucket;
  }

  lemma HoldsFinds(buckets: Buckets, records: map<string, WordRecord>, name: string)
    requires Holds(buckets, records) && name != "" && Bucket(name) in buckets
    ensures name in records ==> records[name] in buckets[Bucket(name)] && records[name].name == name
    ensures forall w :: w in buckets[Bucket(name)] && w.name == name ==> name in records && records[name] == w
  {
    hide Bucket;
  }

  lemma NoEmptyName(buckets: Buckets, records: map<string, WordRecord>)
    requires Holds(buckets, records)
    ensures "" !in records
  {
  }

  /** The array of buckets. The ghost fields name its lists, and the word of each name
      interned so far. */
  class Table {
    const net: array2<WordList?>
    ghost var lists: Lists
    ghost var records: map<string, WordRecord>

    /** `disk_begin` */
    constructor ()
      ensures Valid() && records == map[] && fresh(net) && fresh(lists.Values)
    {
      net := new WordList?[SIDE, SIDE]((i, k) => null);
      lists, records := map[], map[];
      new;
      var i := 1;
      while i <= WRONG
        invariant 1 <= i <= WRONG + 1 && Begun(i, 1) && fresh(lists.Values) && fresh(net)
      {
        hide Begun;
        BeginRow(i);
        i := i + 1;
      }
      NothingHeld(WordsIn(lists));
    }

    /** The lists of the buckets before (i, k) are in their places. */
    ghost predicate Slots(i: int, k: int)
      reads `lists, net
    {
      && net.Length0 == SIDE && net.Length1 == SIDE
      && (forall b: (int, int) {:trigger b in lists} ::
            b in lists <==> InTable(b) && (b.0 < i || (b.0 == i && b.1 < k)))
      && (forall b :: b in lists ==> InTable(b) && net[b.0, b.1] == lists[b])
    }

    /** Every list is valid and in one bucket only. */
    ghost predicate Proper()
      reads `lists, lists.Values
    {
      && (forall b :: b in lists ==> lists[b].Valid())
      && (forall b, d :: b in lists && d in lists && b != d ==> lists[b] != lists[d])
    }

    /** The buckets before (i, k) have their empty lists. */
    ghost predicate Begun(i: int, k: int)
      reads this, net, lists.Values
    {
      && Slots(i, k) && Proper() && records == map[] && forall b :: b in lists ==> lists[b].words == []
    }

    /** The inner loop of `disk_begin`. */
    method BeginRow(i: int)
      requires Begun(i, 1) && 1 <= i <= WRONG
      modifies this, net
      ensures Begun(i + 1, 1) && fresh(lists.Values - old(lists.Values))
    {
      var k := 1;
      while k <= WRONG
        invariant 1 <= k <= WRONG + 1 && Begun(i, k) && fresh(lists.Values - old(lists.Values))
      {
        hide Begun;
        BeginList(i, k);
        k := k + 1;
      }
    }

    method BeginList(i: int, k: int)
      requires Begun(i, k) && 1 <= i <= WRONG && 1 <= k <= WRONG
      modifies this, net
      ensures Begun(i, k + 1) && lists.Values <= old(lists.Values) + {lists[(i, k)]} && fresh(lists[(i, k)])
    {
      var list := new WordList();
      net[i, k] := list;
      lists := lists[(i, k) := list];
    }

    ghost predicate Valid()
      reads this, net, lists.Values
    {
      Slots(WRONG + 1, 1) && Proper() && Holds(WordsIn(lists), records)
    }

    /** `disk_get_word` */
    method GetWord(name: string) returns (w: WordRecord?)
      requires Valid()
      ensures w == if name in records then records[name] else null
    {
      hide Bucket, Holds;
      if |name| == 0 {
        NoEmptyName(WordsIn(lists), records);
        return null;
      }
      var b := Bucket(name);
      assert b in lists;
      HoldsFinds(WordsIn(lists), records, name);
      w := net[b.0, b.1].Find(name);
    }

    /** `disk_set_word` */
    method SetWord(name: string) returns (w: WordRecord?)
      requires Valid()
      modifies this, lists.Values
      ensures Valid() && lists == old(lists)
      ensures name == "" ==> w == null && records == old(records)
      ensures name in old(records) ==> w == old(records[name]) && records == old(records)
      ensures name != "" && name !in old(records) ==>
                w != null && fresh(w) && w.name == name && records == old(records)[name := w]
    {
      hide Bucket, Holds;
      if |name| == 0 {
        NoEmptyName(WordsIn(lists), records);
        return null;
      }
      w := GetWord(name);
      if w != null {
        return;
      }
      w := AddWord(name);
    }

    /** The insertion into the bucket of a new name. */
    method AddWord(name: string) returns (w: WordRecord)
      requires Valid() && name != "" && name !in records
      modifies this, lists.Values
      ensures Valid() && lists == old(lists)
      ensures fresh(w) && w.name == name && records == old(records)[name := w]
    {
      hide Bucket, Holds;
      var b := Bucket(name);
      assert b in lists;
      ghost var buckets := WordsIn(lists);
      HoldsFinds(buckets, records, name);
      w := net[b.0, b.1].Append(name);
      HoldsOneMore(buckets, records, w);
      assert WordsIn(lists) == buckets[b := buckets[b] + [w]];
      records := records[name := w];
    }

    /** Over any run, two names get the same record exactly when they are equal. */
    method SetWords(names: seq<string>) returns (ws: seq<WordRecord?>)
      requires Valid() && forall name :: name in names ==> name != ""
      modifies this, lists.Values
      ensures Valid() && |ws| == |names|
      ensures forall i, j :: 0 <= i < |names| && 0 <= j < |names| ==> (ws[i] == ws[j] <==> names[i] == names[j])
      ensures forall name :: name in old(records) ==> name in records && records[name] == old(records[name])
    {
      hide Slot, Holds, WordsIn, Slots, Proper;
      ws := [];
      for n := 0 to |names|
        invariant Valid() && lists == old(lists) && |ws| == n
        invariant forall i :: 0 <= i < n ==> names[i] in records && ws[i] == records[names[i]] && ws[i].name == names[i]
        invariant forall name :: name in old(records) ==> name in records && records[name] == old(records[name])
      {
        assert names[n] in names;
        var w := SetWord(names[n]);
        Named(WordsIn(lists), records);
        ws := ws + [w];
      }
    }
  }

  lemma NothingHeld(buckets: Buckets)
    requires forall b :: b in buckets ==> buckets[b] == []
    ensures Holds(buckets, map[])
  {
  }

  lemma Named(buckets: Buckets, records: map<string, WordRecord>)
    requires Holds(buckets, records)
    ensures forall name :: name in records ==> records[name].name == name
  {
  }
}
