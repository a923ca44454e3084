/** The cache as it runs: an array of entries, each with its recorded rows, and a
    callback that fills the caller's buffer. Every method here is proved against the search
    on values. */
module QueryCacheTable {
  import opened QueryCache

  /** A recorded query: at most `capacity` rows, as many as were allocated. */
  class EntryObject {
    const hashes: Hashes
    const capacity: nat
    var rawfacts: seq<Row>

    constructor (hashes: Hashes, limit: nat)
      ensures this.hashes == hashes && capacity == limit && rawfacts == []
    {
      this.hashes, capacity, rawfacts := hashes, limit, [];
    }

    ghost predicate Valid()
      reads this
    {
      |rawfacts| <= capacity
    }

    ghost function View(): Entry
      reads this
    {
      Entry(hashes, rawfacts)
    }
  }

  /** One search under way: the caller's buffer, how far it is filled, and where to record. */
  class Request {
    const facts: array<Fact>
    const limit: nat
    var position: nat
    var hashes: Hashes
    var makeRawfacts: bool
    var entry: EntryObject?

    constructor (facts: array<Fact>, limit: nat, position: nat, hashes: Hashes)
      ensures this.facts == facts && this.limit == limit && this.position == position && this.hashes == hashes
      ensures makeRawfacts && entry == null
    {
      this.facts, this.limit, this.position, this.hashes := facts, limit, position, hashes;
      makeRawfacts, entry := true, null;
    }

    ghost predicate Recording()
      reads this
    {
      makeRawfacts && Recordable(hashes)
    }

    ghost predicate Valid()
      reads this, entry
    {
      && limit <= facts.Length && position <= facts.Length
      && (Recording() ==> entry != null && entry.Valid() && limit <= entry.capacity)
    }

    ghost function Recorder(): set<object>
      reads this
    {
      if Recording() && entry != null then {entry} else {}
    }

    ghost function Added(start: nat, row: Row): seq<Row> {
      if start < limit && Usable(row) then [row] else []
    }

    /** `callback_get_facts`; a result other than 0 stops the query. */
    method OnRow(row: Row) returns (stop: bool)
      requires Valid()
      modifies `position, facts, Recorder()
      ensures Valid() && stop == (old(position) >= limit)
      ensures var added := Added(old(position), row);
              position == old(position) + |added| && facts[..position] == old(facts[..position]) + FactsOf(added) &&
              facts[position..] == old(facts[..])[position..]
      ensures Recording() ==>
                entry.rawfacts ==
                  old(entry.rawfacts) + if old(|entry.rawfacts|) < limit then Added(old(position), row) else []
    {
      if position >= limit {
        return true;
      }
      stop := false;
      if !Filled(row[1]) || (!Filled(row[2]) && !Filled(row[3]) && !Filled(row[4]) && !Filled(row[5])) {
        return;
      }
      if makeRawfacts && (hashes.n1 != 0 || hashes.n2 != 0 || hashes.n3 != 0) {
        if |entry.rawfacts| < limit {
          entry.rawfacts := entry.rawfacts + [row];
        }
      }
      facts[position] := FactOf(row);
      position := position + 1;
    }

    /** The rows of the query, up to the one at which the callback stops it. */
    method Execute(rows: seq<Row>)
      requires Valid() && (Recording() ==> entry.rawfacts == [])
      modifies `position, facts, Recorder()
      ensures Valid()
      ensures var got := Take(UsableRows(rows), Room(limit, old(position)));
              && position == old(position) + |got|
              && facts[..position] == old(facts[..position]) + FactsOf(got)
              && facts[position..] == old(facts[..])[position..]
              && (Recording() ==> entry.rawfacts == got)
    {
      hide Usable, UsableRows, FactsOf, FactOf;
      NothingTaken(rows, Room(limit, position));
      ghost var room := Room(limit, position);
      var n := 0;
      var stop := false;
      while n < |rows| && !stop
        invariant 0 <= n <= |rows| && Valid()
        invariant var got := Take(UsableRows(rows[..n]), room);
                  && position == old(position) + |got|
                  && facts[..position] == old(facts[..position]) + FactsOf(got)
                  && facts[position..] == old(facts[..])[position..]
                  && (Recording() ==> entry.rawfacts == got)
                  && (stop ==> got == Take(UsableRows(rows), room))
        decreases |rows| - n, !stop
      {
        ghost var got, added := Take(UsableRows(rows[..n]), room), Added(position, rows[n]);
        stop := OnRow(rows[n]);
        OneRowMore(rows, n, room);
        FactsConcat(got, added);
        assert Take(UsableRows(rows[..n + 1]), room) == got + added;
        n := n + 1;
      }
      assert n == |rows| ==> rows[..n] == rows;
    }

    /** The replay of a recorded entry, which records nothing. */
    method Replay(recorded: EntryObject)
      requires Valid() && recorded.Valid() && !makeRawfacts
      requires AllUsable(recorded.rawfacts)
      modifies `position, facts
      ensures Valid()
      ensures var got := Take(recorded.rawfacts, Room(limit, old(position)));
              position == old(position) + |got| && facts[..position] == old(facts[..position]) + FactsOf(got) &&
              facts[position..] == old(facts[..])[position..]
    {
      hide Usable, FactOf;
      ghost var room, rows := Room(limit, position), recorded.rawfacts;
      var k := 0;
      assert facts[..position] + FactsOf([]) == facts[..position];
      while k < |recorded.rawfacts|
        invariant 0 <= k <= |recorded.rawfacts| && Valid() && rows == recorded.rawfacts
        invariant var got := Take(rows[..k], room);
                  position == old(position) + |got| && facts[..position] == old(facts[..position]) + FactsOf(got) &&
                  facts[position..] == old(facts[..])[position..]
      {
        ghost var got := Take(rows[..k], room);
        ghost var added := Added(position, rows[k]);
        var stop := OnRow(recorded.rawfacts[k]);
        assert Take(rows[..k + 1], room) == got + added;
        FactsConcat(got, added);
        k := k + 1;
      }
      assert rows[..k] == rows;
    }
  }

  ghost predicate AllUsable(rows: seq<Row>) {
    forall i :: 0 <= i < |rows| ==> Usable(rows[i])
  }

  ghost predicate AllValid(entries: seq<EntryObject>)
    reads entries
  {
    forall e :: e in entries ==> e.Valid() && AllUsable(e.rawfacts)
  }

  ghost function Views(entries: seq<EntryObject>): (r: seq<Entry>)
    reads entries
    ensures |r| == |entries| && forall i :: 0 <= i < |r| ==> r[i] == entries[i].View()
  {
    if entries == [] then []
    else
      var front, last := entries[..|entries| - 1], entries[|entries| - 1];
      assert last in entries && forall e :: e in front ==> e in entries;
      Views(front) + [last.View()]
  }

  class Cache {
    const list: array<EntryObject?>
    /** The entries in their slots; the slots after them are null. */
    ghost var entries: seq<EntryObject>

    constructor ()
      ensures Valid() && entries == [] && fresh(list)
    {
      list := new EntryObject?[QUERY_CACHE_SIZE + 1](_ => null);
      entries := [];
    }

    ghost predicate Slots()
      reads this, list
    {
      && list.Length == QUERY_CACHE_SIZE + 1 && |entries| <= QUERY_CACHE_SIZE
      && (forall i :: 0 <= i < list.Length ==> list[i] == if i < |entries| then entries[i] else null)
    }

    ghost predicate Valid()
      reads this, list, entries
    {
      Slots() && AllValid(entries)
    }

    /** `disk_clear_cache`, which frees every entry. */
    method ClearCache()
      requires Slots()
      modifies this, list
      ensures Valid() && entries == []
    {
      var i := 0;
      while i < QUERY_CACHE_SIZE && list[i] != null
        invariant 0 <= i <= |entries| <= QUERY_CACHE_SIZE && list.Length == QUERY_CACHE_SIZE + 1
        invariant forall j :: 0 <= j < list.Length ==> list[j] == if i <= j < |entries| then entries[j] else null
      {
        list[i] := null;
        i := i + 1;
      }
      entries := [];
    }

    /** `find_query_cache_entry`: the last match, or with `create` a new entry. */
    method FindEntry(hashes: Hashes, limit: nat, create: bool) returns (iRight: int)
      requires Valid()
      modifies this, list
      ensures Valid() && -1 <= iRight < |entries|
      ensures iRight >= 0 ==> iRight < list.Length && list[iRight] == entries[iRight]
      ensures var kept := if old(|entries|) >= QUERY_CACHE_SIZE then [] else old(entries);
              var i := Find(Views(kept), hashes);
              if i >= 0 || !create then iRight == i && entries == kept
              else
                && iRight == |kept| && entries == kept + [entries[iRight]]
                && entries[iRight].View() == Entry(hashes, [])
                && fresh(entries[iRight]) && entries[iRight].capacity == limit
    {
      hide Views, Find, AllUsable;
      var i;
      iRight, i := LastMatch(hashes);
      var needToCreate := iRight == -1;
      if i >= QUERY_CACHE_SIZE {
        ClearCache();
        needToCreate := true;
        i := 0;
        iRight := -1;
        NoMatch(hashes);
      }
      if create && needToCreate {
        var entry := new EntryObject(hashes, limit);
        NothingUsable(entry.rawfacts);
        list[i] := entry;
        entries := entries + [entry];
        iRight := i;
      }
    }

    /** `disk_search_facts_for_words_in_net`; `rows` is what the database answers if asked. */
    method SearchFacts(words: Words, facts: array<Fact>, limit: nat, position: nat, rows: seq<Row>)
      returns (after: nat, code: int)
      requires Valid() && limit <= facts.Length && position <= facts.Length
      modifies this, list, facts
      ensures Valid()
      ensures var r := Search(old(Views(entries)), HashesOf(words), rows, Room(limit, position));
              && Views(entries) == r.entries
              && after == position + |r.appended| <= facts.Length
              && facts[..after] == old(facts[..position]) + r.appended
              && facts[after..] == old(facts[..])[after..]
      ensures code == if after > limit - 10 then TOOMUCH else 0
    {
      hide HashesOf, UsableRows, Usable, FactsOf, Find, Views, AllUsable, Room, Take, Search;
      var hashes := HashesOf(words);
      ghost var before, room := entries, Room(limit, position);
      var iRight := FindEntry(hashes, limit, false);
      assert facts[..] == old(facts[..]);
      if iRight >= 0 {
        SearchHits(entries, iRight, before, hashes, rows, room);
        after := Repeat(list[iRight], facts, limit, position);
      } else {
        SearchMisses(before, entries, hashes, rows, room);
        after := Ask(hashes, facts, limit, position, rows);
      }
      code := if after > limit - 10 then TOOMUCH else 0;
    }

    /** A hit: the recorded rows go through the callback once more. */
    method Repeat(entry: EntryObject, facts: array<Fact>, limit: nat, position: nat) returns (after: nat)
      requires Valid() && entry in entries && limit <= facts.Length && position <= facts.Length
      modifies facts
      ensures Valid() && Views(entries) == old(Views(entries))
      ensures var got := FactsOf(Take(entry.rawfacts, Room(limit, position)));
              && after == position + |got| <= facts.Length
              && facts[..after] == old(facts[..position]) + got && facts[after..] == old(facts[..])[after..]
    {
      hide UsableRows, Usable, FactsOf, Find, Views, AllUsable, Room, Take;
      var req := new Request(facts, limit, position, Hashes(0, 0, 0));
      req.makeRawfacts := false;
      req.Replay(entry);
      after := req.position;
    }

    /** A miss: the query is executed and its rows are recorded in a new entry. */
    method Ask(hashes: Hashes, facts: array<Fact>, limit: nat, position: nat, rows: seq<Row>) returns (after: nat)
      requires Valid() && limit <= facts.Length && position <= facts.Length
      requires |entries| < QUERY_CACHE_SIZE && Find(Views(entries), hashes) == -1
      modifies this, list, facts
      ensures Valid()
      ensures var got := Take(UsableRows(rows), Room(limit, position));
              && Views(entries) == old(Views(entries)) + [Entry(hashes, if Recordable(hashes) then got else [])]
              && after == position + |got| <= facts.Length
              && facts[..after] == old(facts[..position]) + FactsOf(got) && facts[after..] == old(facts[..])[after..]
    {
      hide UsableRows, Usable, FactsOf, Find, Views, AllUsable, AllValid, Slots, Room, Take;
      ghost var kept := entries;
      var created := FindEntry(hashes, limit, true);
      assert facts[..] == old(facts[..]) && Views(kept) == old(Views(entries));
      after := Fill(list[created], facts, limit, position, rows, kept);
    }

    /** Execution into a new entry, the last one. */
    method Fill(entry: EntryObject, facts: array<Fact>, limit: nat, position: nat, rows: seq<Row>,
                ghost kept: seq<EntryObject>) returns (after: nat)
      requires Valid() && limit <= facts.Length && position <= facts.Length
      requires entries == kept + [entry] && entry !in kept && entry.rawfacts == [] && entry.capacity == limit
      modifies entry, facts
      ensures Valid()
      ensures var got := Take(UsableRows(rows), Room(limit, position));
              && Views(entries) ==
                   old(Views(kept)) + [Entry(entry.hashes, if Recordable(entry.hashes) then got else [])]
              && after == position + |got| <= facts.Length
              && facts[..after] == old(facts[..position]) + FactsOf(got) && facts[after..] == old(facts[..])[after..]
    {
      hide UsableRows, Usable, FactsOf, Find, Views, AllUsable, AllValid, Slots, Room, Take;
      AllValidFront(kept, entry);
      var req := new Request(facts, limit, position, entry.hashes);
      req.entry := entry;
      req.Execute(rows);
      GotUsable(rows, Room(limit, position));
      ViewsAppend(kept, entry);
      after := req.position;
    }

    /** The loop of `find_query_cache_entry` over the slots in use. */
    method LastMatch(hashes: Hashes) returns (iRight: int, i: nat)
      requires Valid()
      ensures i == |entries| && iRight == Find(Views(entries), hashes)
    {
      hide AllUsable;
      iRight := -1;
      ghost var was := Views(entries);
      i := 0;
      while i < QUERY_CACHE_SIZE && list[i] != null
        invariant 0 <= i <= |entries| && iRight == Find(was[..i], hashes)
      {
        var entry := list[i];
        assert was[..i + 1][..i] == was[..i];
        if entry.hashes.n1 == hashes.n1 && entry.hashes.n2 == hashes.n2 && entry.hashes.n2 == hashes.n2 {
          iRight := i;
        }
        i := i + 1;
      }
      assert was[..i] == was;
    }
  }

  lemma SearchHits(kept: seq<EntryObject>, i: nat, before: seq<EntryObject>, h: Hashes, rows: seq<Row>, room: nat)
    requires kept == (if |before| >= QUERY_CACHE_SIZE then [] else before) && i < |kept| && i == Find(Views(kept), h)
    ensures Search(Views(before), h, rows, room) == Outcome(Views(kept), FactsOf(Take(kept[i].rawfacts, room)))
  {
    hide UsableRows, FactsOf, Find;
  }

  lemma SearchMisses(before: seq<EntryObject>, kept: seq<EntryObject>, h: Hashes, rows: seq<Row>, room: nat)
    requires kept == (if |before| >= QUERY_CACHE_SIZE then [] else before) && Find(Views(kept), h) == -1
    ensures var got := Take(UsableRows(rows), room);
            Search(Views(before), h, rows, room) ==
              Outcome(Views(kept) + [Entry(h, if Recordable(h) then got else [])], FactsOf(got))
  {
    hide UsableRows, FactsOf, Find;
  }

  lemma ViewsAppend(kept: seq<EntryObject>, e: EntryObject)
    ensures Views(kept + [e]) == Views(kept) + [e.View()]
    ensures AllValid(kept) && e.Valid() && AllUsable(e.rawfacts) ==> AllValid(kept + [e])
  {
    hide AllUsable;
  }

  lemma AllValidFront(kept: seq<EntryObject>, e: EntryObject)
    requires AllValid(kept + [e])
    ensures AllValid(kept)
  {
    hide AllUsable;
    assert forall o :: o in kept ==> o in kept + [e];
  }

  lemma GotUsable(rows: seq<Row>, room: nat)
    ensures AllUsable(Take(UsableRows(rows), room)) && AllUsable([])
  {
    hide Usable;
    UsableAgain(rows);
  }

  lemma NoMatch(h: Hashes)
    ensures Find(Views([]), h) == -1
  {
  }

  lemma NothingUsable(rows: seq<Row>)
    requires rows == []
    ensures AllUsable(rows)
  {
  }
}
