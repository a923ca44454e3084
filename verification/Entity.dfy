/** The grammar's symbols: parsing of "name/order/marker/..." descriptions, the key
    under which a symbol is matched, and the marker operations on it. */
module Entities {
  import opened Text

  /** What an `entity` object holds. `order == -1` is "no order number". */
  datatype Entity = Entity(
    data: string, symbol: string, repl: string, virt: seq<string>,
    text: string, embed: seq<Entity>, order: int)

  const BLANK := Entity("", "", "", [], "", [], -1)

  function Primary(e: Entity): string {
    if e.data != "" then e.data else if e.symbol != "" then e.symbol else e.repl
  }

  /** One piece of a description, in the branch order of `entity::init`. */
  function AddPart(e: Entity, p: string): Entity {
    if p == "" || p == "null" then e
    else if AllDigits(p) then e.(order := ParseOrder(p))
    else if e.symbol == "" && e.repl == "" && e.data == "" then
      if StartsWith(p, "s-") then e.(symbol := p)
      else if StartsWith(p, "r-") then e.(repl := p)
      else if StartsWith(p, "d-") then e.(data := p)
      else e.(virt := e.virt + [p])
    else if StartsWith(p, "r-") then e
    else e.(virt := e.virt + [p])
  }

  function AddParts(e: Entity, parts: seq<string>): Entity
    decreases |parts|
  {
    if parts == [] then e else AddParts(AddPart(e, parts[0]), parts[1..])
  }

  function Add(e: Entity, text: string): Entity {
    AddParts(e, Split(text, {'/'}))
  }

  function NewEntity(text: string, embed: seq<Entity>): Entity {
    Add(BLANK.(embed := embed), text)
  }

  function OrderSuffix(order: int): string {
    if order >= 0 then "/" + Decimal(order) else ""
  }

  function ToKey(e: Entity): string {
    (if Primary(e) == "" then "null" else Primary(e)) + OrderSuffix(e.order)
  }

  function ToStr(e: Entity): string {
    ToKey(e) + Slashed(e.virt) +
    (if e.embed == [] then "" else " < " + CommaJoined(e.embed) + " > ")
  }

  function CommaJoined(es: seq<Entity>): string {
    if es == [] then ""
    else if |es| == 1 then ToStr(es[0])
    else ToStr(es[0]) + ", " + CommaJoined(es[1..])
  }

  function Print(e: Entity): string {
    ToKey(e) + Slashed(e.virt) +
    (if e.text == "" then "" else ": '" + e.text + "'") +
    (if e.embed == [] then "" else " < " + CommaPrinted(e.embed) + " > ")
  }

  function CommaPrinted(es: seq<Entity>): string {
    if es == [] then ""
    else if |es| == 1 then Print(es[0])
    else Print(es[0]) + ", " + CommaPrinted(es[1..])
  }

  /** `entity::type`. */
  function TypeOf(e: Entity): char {
    if e.data != "" then 'd' else if e.symbol != "" then 's' else if e.repl != "" then 'r'
    else if e.virt != [] then 'v' else '0'
  }

  function Marker(e: Entity): seq<string> {
    if e.virt != [] then e.virt else [ToStr(e)]
  }

  function GetOrder(e: Entity): int {
    if e.order >= 0 then e.order else 1
  }

  /** `grammar::modify_symbol`: a copy of `e` with the markers added. */
  function Mark(e: Entity, markers: seq<string>): Entity {
    Add(e, Slashed(markers))
  }

  /** An `entity` object, whose methods update its fields in place. */
  class EntityObject {
    var data: string
    var symbol: string
    var repl: string
    var virt: seq<string>
    var text: string
    var embed: seq<Entity>
    var order: int

    ghost function Value(): Entity
      reads this
    {
      Entity(data, symbol, repl, virt, text, embed, order)
    }

    constructor (description: string, embedded: seq<Entity>)
      ensures Value() == NewEntity(description, embedded)
    {
      data, symbol, repl, virt, text, embed, order := "", "", "", [], "", embedded, -1;
      new;
      Init(description);
    }

    constructor Copy(e: Entity)
      ensures Value() == e
    {
      data, symbol, repl, virt, text, embed, order :=
        e.data, e.symbol, e.repl, e.virt, e.text, e.embed, e.order;
    }

    method Init(description: string)
      modifies this
      ensures Value() == Add(old(Value()), description)
    {
      var parts := Split(description, {'/'});
      var i := 0;
      while i < |parts|
        invariant 0 <= i <= |parts|
        invariant AddParts(Value(), parts[i..]) == AddParts(old(Value()), parts)
      {
        var part := parts[i];
        ghost var before := Value();
        if part == "" || part == "null" {
        } else if AllDigits(part) {
          order := ParseOrder(part);
        } else if symbol == "" && repl == "" && data == "" {
          if StartsWith(part, "s-") {
            symbol := part;
          } else if StartsWith(part, "r-") {
            repl := part;
          } else if StartsWith(part, "d-") {
            data := part;
          } else {
            virt := virt + [part];
          }
        } else if !StartsWith(part, "r-") {
          virt := virt + [part];
        }
        assert Value() == AddPart(before, part);
        assert parts[i..][1..] == parts[i + 1..];
        i := i + 1;
      }
    }

    method SetText(t: string)
      modifies this`text
      ensures Value() == old(Value()).(text := t)
    {
      text := t;
    }
  }

  // ---- what every sequence of init and add calls keeps -------------------------

  predicate PartOk(p: string) {
    p != "" && p != "null" && !AllDigits(p) && NoneOf(p, {'/'})
  }

  predicate VirtOk(v: string, named: bool) {
    PartOk(v) && !StartsWith(v, "r-") &&
    (!named ==> !StartsWith(v, "s-") && !StartsWith(v, "d-"))
  }

  /** At most one primary name, carrying its own prefix; markers never look like an
      order number or a replacement symbol. */
  predicate WellFormed(e: Entity) {
    && -1 <= e.order <= INT_MAX
    && (e.data != "" ==> PartOk(e.data) && StartsWith(e.data, "d-") && e.symbol == "" && e.repl == "")
    && (e.symbol != "" ==> PartOk(e.symbol) && StartsWith(e.symbol, "s-") && e.repl == "")
    && (e.repl != "" ==> PartOk(e.repl) && StartsWith(e.repl, "r-"))
    && forall v :: v in e.virt ==> VirtOk(v, Primary(e) != "")
  }

  lemma {:induction false} AddPartsWellFormed(e: Entity, parts: seq<string>)
    requires WellFormed(e)
    requires forall p :: p in parts ==> NoneOf(p, {'/'})
    ensures WellFormed(AddParts(e, parts))
    ensures AddParts(e, parts).embed == e.embed && AddParts(e, parts).text == e.text
    decreases |parts|
  {
    if parts != [] {
      assert parts[0] in parts;
      AddPartsWellFormed(AddPart(e, parts[0]), parts[1..]);
    }
  }

  /** Every run of the constructor and `add` ends in a well-formed entity; neither
      touches the text or the embedded children. */
  lemma AddWellFormed(e: Entity, text: string)
    requires WellFormed(e)
    ensures WellFormed(Add(e, text))
    ensures Add(e, text).embed == e.embed && Add(e, text).text == e.text
  {
    AddPartsWellFormed(e, Split(text, {'/'}));
  }

  lemma {:induction false} AddVirts(e: Entity, virts: seq<string>)
    requires WellFormed(e)
    requires forall v :: v in virts ==> VirtOk(v, Primary(e) != "")
    ensures AddParts(e, virts) == e.(virt := e.virt + virts)
    decreases |virts|
  {
    if virts == [] {
      assert e.virt + virts == e.virt;
    } else {
      assert virts[0] in virts;
      assert AddPart(e, virts[0]) == e.(virt := e.virt + [virts[0]]);
      var e' := e.(virt := e.virt + [virts[0]]);
      forall v | v in virts[1..] ensures VirtOk(v, Primary(e') != "") { assert v in virts; }
      AddVirts(e', virts[1..]);
      assert e.virt + virts == (e.virt + [virts[0]]) + virts[1..];
    }
  }

  function NameOrNull(e: Entity): string {
    if Primary(e) == "" then "null" else Primary(e)
  }

  function OrderParts(order: int): seq<string> {
    if order >= 0 then [Decimal(order)] else []
  }

  lemma DigitsNoSlash(s: string)
    requires AllDigits(s)
    ensures NoneOf(s, {'/'}) && s != "" && s != "null"
  {
    assert IsDigit(s[0]) && "null"[0] == 'n';
  }

  lemma KeySplits(e: Entity)
    requires WellFormed(e)
    ensures Split(ToKey(e), {'/'}) == [NameOrNull(e)] + OrderParts(e.order)
    ensures ToKey(e) == NameOrNull(e) + Slashed(OrderParts(e.order))
  {
    if e.order >= 0 {
      DigitsNoSlash(Decimal(e.order));
      assert Slashed([]) == "";
      assert Slashed([Decimal(e.order)]) == "/" + Decimal(e.order);
    }
    SlashedSplit(NameOrNull(e), OrderParts(e.order));
  }

  lemma {:induction false} SlashedConcat(a: seq<string>, b: seq<string>)
    ensures Slashed(a + b) == Slashed(a) + Slashed(b)
  {
    if a == [] {
      assert a + b == b;
    } else {
      SlashedConcat(a[1..], b);
      assert (a + b)[1..] == a[1..] + b && (a + b)[0] == a[0];
      assert ("/" + a[0]) + (Slashed(a[1..]) + Slashed(b)) == (("/" + a[0]) + Slashed(a[1..])) + Slashed(b);
    }
  }

  lemma AddPartsConcat(e: Entity, a: seq<string>, b: seq<string>)
    ensures AddParts(e, a + b) == AddParts(AddParts(e, a), b)
    decreases |a|
  {
    hide AddPart;
    if a == [] {
      assert a + b == b;
    } else {
      AddPartsConcat(AddPart(e, a[0]), a[1..], b);
      assert (a + b)[1..] == a[1..] + b && (a + b)[0] == a[0];
    }
  }

  /** Keys determine the primary name and the order number. */
  lemma KeyInjective(e: Entity, f: Entity)
    requires WellFormed(e) && WellFormed(f) && ToKey(e) == ToKey(f)
    ensures Primary(e) == Primary(f) && e.order == f.order
  {
    KeySplits(e);
    KeySplits(f);
    var pe, pf := [NameOrNull(e)] + OrderParts(e.order), [NameOrNull(f)] + OrderParts(f.order);
    assert pe[0] == pf[0];
    if e.order >= 0 {
      assert pe[1] == pf[1];
      ParseDecimal(e.order);
      ParseDecimal(f.order);
    }
  }

  lemma AddOrder(e: Entity, order: int)
    requires -1 <= order <= INT_MAX
    ensures AddParts(e, OrderParts(order)) == if order >= 0 then e.(order := order) else e
  {
    if order >= 0 {
      var d := Decimal(order);
      DigitsNoSlash(d);
      ParseDecimal(order);
      assert AddParts(e, [d]) == AddParts(AddPart(e, d), [d][1..]);
      assert [d][1..] == [];
    }
  }

  lemma ToStrSplits(e: Entity)
    requires WellFormed(e) && e.embed == []
    ensures Split(ToStr(e), {'/'}) == [NameOrNull(e)] + (OrderParts(e.order) + e.virt)
  {
    var parts := OrderParts(e.order) + e.virt;
    KeySplits(e);
    SlashedConcat(OrderParts(e.order), e.virt);
    assert ToStr(e) == NameOrNull(e) + Slashed(parts);
    if e.order >= 0 { DigitsNoSlash(Decimal(e.order)); }
    SlashedSplit(NameOrNull(e), parts);
  }

  lemma AddName(e: Entity)
    requires WellFormed(e)
    ensures AddPart(BLANK, NameOrNull(e)) == BLANK.(data := e.data, symbol := e.symbol, repl := e.repl)
  {
    if Primary(e) != "" {
      assert PartOk(Primary(e));
      assert Primary(e)[0] == if e.data != "" then 'd' else if e.symbol != "" then 's' else 'r';
      assert "d-"[0] == 'd' && "s-"[0] == 's' && "r-"[0] == 'r';
    }
  }

  /** A childless entity printed by `to_str` and parsed again is itself, text aside. */
  lemma ToStrRoundTrip(e: Entity)
    requires WellFormed(e) && e.embed == []
    ensures NewEntity(ToStr(e), []) == e.(text := "")
  {
    ToStrSplits(e);
    AddName(e);
    var parts := OrderParts(e.order) + e.virt;
    var named := BLANK.(data := e.data, symbol := e.symbol, repl := e.repl);
    assert BLANK.(embed := []) == BLANK;
    assert NewEntity(ToStr(e), []) == AddParts(named, parts) by {
      var all := [NameOrNull(e)] + parts;
      assert all[0] == NameOrNull(e) && all[1..] == parts;
    }
    AddPartsConcat(named, OrderParts(e.order), e.virt);
    AddOrder(named, e.order);
    var ordered := named.(order := e.order);
    assert AddParts(named, OrderParts(e.order)) == ordered;
    AddVirts(ordered, e.virt);
    assert [] + e.virt == e.virt;
  }

  function AddAll(e: Entity, texts: seq<string>): Entity {
    if texts == [] then e else Add(AddAll(e, texts[..|texts| - 1]), texts[|texts| - 1])
  }

  /** The round trip holds of whatever any run of `add` calls builds. */
  lemma {:induction false} AnyRunRoundTrips(texts: seq<string>)
    ensures WellFormed(AddAll(BLANK, texts))
    ensures NewEntity(ToStr(AddAll(BLANK, texts)), []) == AddAll(BLANK, texts)
  {
    AnyRunWellFormed(texts);
    ToStrRoundTrip(AddAll(BLANK, texts));
  }

  lemma {:induction false} AnyRunWellFormed(texts: seq<string>)
    ensures WellFormed(AddAll(BLANK, texts))
    ensures AddAll(BLANK, texts).embed == [] && AddAll(BLANK, texts).text == ""
  {
    if texts != [] {
      AnyRunWellFormed(texts[..|texts| - 1]);
      AddWellFormed(AddAll(BLANK, texts[..|texts| - 1]), texts[|texts| - 1]);
    }
  }

  lemma MarkParts(e: Entity, markers: seq<string>)
    requires forall m :: m in markers ==> NoneOf(m, {'/'})
    ensures Mark(e, markers) == AddParts(e, markers)
  {
    SlashedSplit("", markers);
    assert "" + Slashed(markers) == Slashed(markers);
    var parts := [""] + markers;
    assert parts[1..] == markers;
  }

  lemma PlainMarker(f: Entity)
    requires WellFormed(f) && f.virt == [] && f.embed == []
    ensures Slashed(Marker(f)) == Slashed([NameOrNull(f)] + OrderParts(f.order))
  {
    KeySplits(f);
    var k, parts := ToKey(f), [NameOrNull(f)] + OrderParts(f.order);
    assert parts[1..] == OrderParts(f.order);
    assert Slashed(parts) == "/" + k;
    assert [k][1..] == [] && Slashed([k]) == "/" + k + "";
    assert ToStr(f) == k;
  }

  lemma MarkWithName(e: Entity, f: Entity)
    requires WellFormed(f) && f.virt == [] && f.embed == []
    ensures Mark(e, Marker(f)) == AddParts(e, [NameOrNull(f)] + OrderParts(f.order))
  {
    PlainMarker(f);
    if f.order >= 0 { DigitsNoSlash(Decimal(f.order)); }
    MarkParts(e, [NameOrNull(f)] + OrderParts(f.order));
  }

  /** Marking an entity with the markers of a rule element it matches never changes
      the key it is matched by, nor its type, text or children. */
  lemma MarkKeepsKey(e: Entity, f: Entity)
    requires WellFormed(e) && WellFormed(f) && f.embed == [] && ToKey(e) == ToKey(f)
    ensures ToKey(Mark(e, Marker(f))) == ToKey(e)
    ensures WellFormed(Mark(e, Marker(f)))
    ensures Mark(e, Marker(f)).text == e.text && Mark(e, Marker(f)).embed == e.embed
  {
    KeyInjective(e, f);
    AddWellFormed(e, Slashed(Marker(f)));
    if f.virt != [] {
      MarkParts(e, f.virt);
      AddVirts(e, f.virt);
    } else {
      MarkWithName(e, f);
      var e' := AddPart(e, NameOrNull(f));
      var parts := [NameOrNull(f)] + OrderParts(f.order);
      assert parts[0] == NameOrNull(f) && parts[1..] == OrderParts(f.order);
      AddOrder(e', f.order);
    }
  }

  /** What a replaced symbol's markers do to a symbol that replaces it: only a replacement
      symbol with an order number and no markers of its own hands that number on. */
  lemma InheritedOrder(e: Entity, r: Entity)
    requires WellFormed(e) && Primary(e) != ""
    requires WellFormed(r) && TypeOf(r) == 'r' && r.embed == []
    ensures Mark(e, Marker(r)) ==
      e.(virt := e.virt + r.virt, order := if r.virt == [] && r.order >= 0 then r.order else e.order)
    ensures WellFormed(Mark(e, Marker(r)))
  {
    AddWellFormed(e, Slashed(Marker(r)));
    if r.virt != [] {
      MarkParts(e, r.virt);
      AddVirts(e, r.virt);
    } else {
      MarkWithName(e, r);
      var parts := [NameOrNull(r)] + OrderParts(r.order);
      assert parts[1..] == OrderParts(r.order) && parts[0] == r.repl;
      assert AddPart(e, r.repl) == e;
      AddOrder(e, r.order);
      assert e.virt + [] == e.virt;
    }
  }

  /** Passing a replacement symbol's markers on keeps the key of a symbol that replaces it
      exactly when the replacement symbol has no order number, or has markers, which are
      passed on in its place, or has the order number that the symbol has already. */
  lemma InheritKeepsKeyIff(e: Entity, r: Entity)
    requires WellFormed(e) && Primary(e) != ""
    requires WellFormed(r) && TypeOf(r) == 'r' && r.embed == []
    ensures ToKey(Mark(e, Marker(r))) == ToKey(e) <==> r.order == -1 || r.virt != [] || r.order == e.order
  {
    hide Mark, AddParts;
    InheritedOrder(e, r);
    if ToKey(Mark(e, Marker(r))) == ToKey(e) { KeyInjective(Mark(e, Marker(r)), e); }
  }

  /** So a replacement symbol that hands on no order number keeps keys, types and children. */
  lemma InheritKeepsKey(e: Entity, r: Entity)
    requires WellFormed(e) && Primary(e) != ""
    requires WellFormed(r) && TypeOf(r) == 'r' && (r.order == -1 || r.virt != []) && r.embed == []
    ensures ToKey(Mark(e, Marker(r))) == ToKey(e)
    ensures TypeOf(Mark(e, Marker(r))) == TypeOf(e)
    ensures WellFormed(Mark(e, Marker(r))) && Mark(e, Marker(r)).embed == e.embed
    ensures Mark(e, Marker(r)).order == e.order && (e.virt != [] ==> Mark(e, Marker(r)).virt != [])
  {
    hide Mark, ToKey, WellFormed;
    InheritedOrder(e, r);
    InheritKeepsKeyIff(e, r);
  }

  /** An order number does leak: "r-a/2" replaced by "d-x" leaves "d-x/2", a different key;
      "r-a/2/v-x" leaves "d-x" as it is. */
  lemma OrderedReplacementChangesKey()
    ensures var r, e := BLANK.(repl := "r-a", order := 2), BLANK.(data := "d-x");
            WellFormed(r) && WellFormed(e) && ToKey(e) == "d-x" && ToKey(Mark(e, Marker(r))) == "d-x/2"
    ensures var r, e := BLANK.(repl := "r-a", order := 2, virt := ["v-x"]), BLANK.(data := "d-x");
            WellFormed(r) && ToKey(Mark(e, Marker(r))) == ToKey(e)
  {
    hide Mark, Marker, ToKey, WellFormed;
    var e := BLANK.(data := "d-x");
    var r, v := BLANK.(repl := "r-a", order := 2), BLANK.(repl := "r-a", order := 2, virt := ["v-x"]);
    ExampleSymbols(e, r, v);
    InheritedOrder(e, r);
    ExampleKeys(Mark(e, Marker(r)), e);
    InheritKeepsKeyIff(e, v);
  }

  lemma ExampleSymbols(e: Entity, r: Entity, v: Entity)
    requires e == BLANK.(data := "d-x") && r == BLANK.(repl := "r-a", order := 2) && v == r.(virt := ["v-x"])
    ensures WellFormed(e) && WellFormed(r) && WellFormed(v)
  {
    assert "r-a"[0] == 'r' && "d-x"[0] == 'd' && "v-x"[0] == 'v' && "null"[0] == 'n';
  }

  lemma ExampleKeys(ordered: Entity, plain: Entity)
    requires ordered.data == plain.data == "d-x" && ordered.order == 2 && plain.order == -1
    ensures ToKey(ordered) == "d-x/2" && ToKey(plain) == "d-x"
  {
    assert Decimal(2) == "2";
  }

  // ---- what a description says ----------------------------------------------------------

  predicate SymbolName(name: string) {
    PartOk(name) && ("d-" <= name || "s-" <= name || "r-" <= name)
  }

  /** The symbol of a name, an order number and markers. */
  ghost predicate Says(e: Entity, name: string, n: nat, ms: seq<string>) {
    && e.data == (if "d-" <= name then name else "") && e.symbol == (if "s-" <= name then name else "")
    && e.repl == (if "r-" <= name then name else "") && e.virt == ms && e.text == "" && e.embed == []
    && e.order == if n <= 2147483647 then n else 2147483647
  }

  lemma NamedSymbol(name: string)
    requires SymbolName(name)
    ensures var e := AddPart(BLANK, name); WellFormed(e) && Primary(e) == name && Says(e.(order := 0), name, 0, [])
  {
    assert "d-"[0] == 'd' && "s-"[0] == 's' && "r-"[0] == 'r';
  }

  lemma NumberPart(e: Entity, n: nat)
    ensures AddPart(e, Decimal(n)) == e.(order := if n <= 2147483647 then n else 2147483647)
  {
    DigitsNoSlash(Decimal(n));
    ParseDecimal(n);
  }

  /** "name/number/marker/..." is read as it looks, wherever the number stands; a number that does
      not fit becomes the largest one. */
  lemma DescriptionRead(name: string, n: nat, before: seq<string>, after: seq<string>)
    requires SymbolName(name) && forall m :: m in before + after ==> VirtOk(m, true)
    ensures Says(NewEntity(name + Slashed(before + [Decimal(n)] + after), []), name, n, before + after)
  {
    hide VirtOk, AddPart, AddParts, WellFormed;
    var parts := before + [Decimal(n)] + after;
    DescriptionSplits(name, n, before, after);
    NamedSymbol(name);
    var e0 := AddPart(BLANK, name);
    FirstPart(BLANK, name, parts);
    assert BLANK.(embed := []) == BLANK;
    AddPartsConcat(e0, before + [Decimal(n)], after);
    AddPartsConcat(e0, before, [Decimal(n)]);
    MarkersAdded(e0, before);
    var e1 := e0.(virt := e0.virt + before);
    OnePart(e1, Decimal(n));
    NumberPart(e1, n);
    var e2 := e1.(order := if n <= 2147483647 then n else 2147483647);
    NumberedIsSymbol(e0, e2, before);
    MarkersAdded(e2, after);
    assert e0.virt + before == before && e2.virt + after == before + after;
  }

  lemma DescriptionSplits(name: string, n: nat, before: seq<string>, after: seq<string>)
    requires SymbolName(name) && forall m :: m in before + after ==> VirtOk(m, true)
    ensures Split(name + Slashed(before + [Decimal(n)] + after), {'/'}) == [name] + (before + [Decimal(n)] + after)
  {
    var parts := before + [Decimal(n)] + after;
    DigitsNoSlash(Decimal(n));
    forall p | p in parts ensures NoneOf(p, {'/'}) {
      if p != Decimal(n) { assert p in before + after; }
    }
    SlashedSplit(name, parts);
  }

  lemma FirstPart(e: Entity, name: string, parts: seq<string>)
    ensures AddParts(e, [name] + parts) == AddParts(AddPart(e, name), parts)
  {
    assert ([name] + parts)[1..] == parts;
  }

  lemma OnePart(e: Entity, p: string)
    ensures AddParts(e, [p]) == AddPart(e, p)
  {
    assert [p][1..] == [];
  }

  lemma MarkersAdded(e: Entity, ms: seq<string>)
    requires WellFormed(e) && Primary(e) != "" && forall m :: m in ms ==> VirtOk(m, true)
    ensures AddParts(e, ms) == e.(virt := e.virt + ms)
  {
    AddVirts(e, ms);
  }

  lemma NumberedIsSymbol(e: Entity, f: Entity, ms: seq<string>)
    requires WellFormed(e) && Primary(e) != "" && (forall m :: m in ms ==> VirtOk(m, true)) && e.virt == []
    requires f == e.(virt := e.virt + ms, order := f.order) && 0 <= f.order <= INT_MAX
    ensures WellFormed(f) && Primary(f) == Primary(e)
  {
  }
}
