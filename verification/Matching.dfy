/** Matching a rule body against a token list through one string search: keys are
    written out between single spaces and the body's string is looked up in the list's. */
module Matching {
  import opened Text

  function Spaced(keys: seq<string>): string {
    if keys == [] then "" else keys[0] + " " + Spaced(keys[1..])
  }

  /** `all_get_key` and `all_to_str`: "" for no keys, else " k1 k2 ... kn ". */
  function Delimited(keys: seq<string>): string {
    if keys == [] then "" else " " + Spaced(keys)
  }

  predicate Clean(keys: seq<string>) {
    forall k :: k in keys ==> NoneOf(k, {' '})
  }

  ghost predicate SublistAt(find: seq<string>, keys: seq<string>, i: int) {
    0 <= i && i + |find| <= |keys| && keys[i..i + |find|] == find
  }

  lemma {:induction false} SpacedConcat(a: seq<string>, b: seq<string>)
    ensures Spaced(a + b) == Spaced(a) + Spaced(b)
  {
    if a == [] {
      assert a + b == b;
    } else {
      SpacedConcat(a[1..], b);
      assert (a + b)[1..] == a[1..] + b;
      assert (a + b)[0] == a[0];
    }
  }

  /** A space in the written-out keys is always the boundary before some key. */
  lemma {:induction false} SpaceIsBoundary(keys: seq<string>, p: nat) returns (j: nat)
    requires Clean(keys) && p < 1 + |Spaced(keys)| && (" " + Spaced(keys))[p] == ' '
    ensures j <= |keys| && (" " + Spaced(keys))[p..] == " " + Spaced(keys[j..])
    decreases |keys|
  {
    var text := " " + Spaced(keys);
    if p == 0 {
      j := 0;
      assert keys[0..] == keys && text[0..] == text;
    } else {
      var k, rest := keys[0], " " + Spaced(keys[1..]);
      assert text == (" " + k) + rest;
      assert k in keys;
      assert p <= |k| ==> k[p - 1] == text[p];
      NoSpaces(k);
      assert p > |k|;
      var q := p - 1 - |k|;
      assert text[p] == rest[q] && text[p..] == rest[q..];
      assert Clean(keys[1..]);
      var j' := SpaceIsBoundary(keys[1..], q);
      j := j' + 1;
      assert keys[1..][j'..] == keys[j..];
    }
  }

  lemma NoSpaces(k: string)
    requires NoneOf(k, {' '})
    ensures forall q :: 0 <= q < |k| ==> k[q] != ' '
  {
    forall q | 0 <= q < |k| ensures k[q] != ' ' { assert k[q] in k; }
  }

  lemma SpaceInside(f: string, fs: string, k: string, ks: string)
    requires f + " " + fs <= k + " " + ks
    ensures |f| < |k| ==> k[|f|] == ' '
    ensures |k| < |f| ==> f[|k|] == ' '
    ensures |f| == |k| ==> f == k && fs <= ks
  {
    var a, b := f + " " + fs, k + " " + ks;
    assert a[|f|] == ' ' && b[|k|] == ' ' && a == b[..|a|];
    assert |f| < |k| ==> k[|f|] == b[|f|];
    assert |k| < |f| ==> f[|k|] == a[|k|];
    if |f| == |k| {
      assert f == a[..|f|] == b[..|k|] == k;
      assert fs == a[|f| + 1..] && ks == b[|k| + 1..];
    }
  }

  lemma FirstKeyAgrees(f: string, fs: string, k: string, ks: string)
    requires NoneOf(f, {' '}) && NoneOf(k, {' '}) && f + " " + fs <= k + " " + ks
    ensures f == k && fs <= ks
  {
    SpaceInside(f, fs, k, ks);
    NoSpaces(k);
    NoSpaces(f);
  }

  lemma {:induction false} PrefixIsSublist(find: seq<string>, keys: seq<string>)
    requires Clean(find) && Clean(keys) && Spaced(find) <= Spaced(keys)
    ensures find <= keys
    decreases |find|
  {
    if find != [] {
      assert Spaced(find)[|find[0]|] == ' ' && |keys| > 0;
      assert find[0] in find && keys[0] in keys;
      FirstKeyAgrees(find[0], Spaced(find[1..]), keys[0], Spaced(keys[1..]));
      PrefixIsSublist(find[1..], keys[1..]);
      assert find == [find[0]] + find[1..] && keys == [keys[0]] + keys[1..];
    }
  }

  lemma FoundAtBoundary(find: seq<string>, keys: seq<string>, p: nat)
    requires find != [] && Clean(find) && Clean(keys)
    requires p <= |Delimited(keys)| && Delimited(find) <= Delimited(keys)[p..]
    ensures exists i :: SublistAt(find, keys, i)
  {
    var j := SpaceIsBoundary(keys, p);
    var rest := keys[j..];
    DropSpace(Spaced(find), Spaced(rest));
    PrefixIsSublist(find, rest);
    assert keys[j..j + |find|] == rest[..|find|];
    assert SublistAt(find, keys, j);
  }

  lemma SearchFindsSublist(find: seq<string>, keys: seq<string>)
    requires find != [] && Clean(find) && Clean(keys)
    requires Occurs(Delimited(find), Delimited(keys))
    ensures exists i :: SublistAt(find, keys, i)
  {
    var p :| 0 <= p <= |Delimited(keys)| && Delimited(find) <= Delimited(keys)[p..];
    FoundAtBoundary(find, keys, p);
  }

  lemma DropSpace(a: string, b: string)
    requires " " + a <= " " + b
    ensures a <= b
  {
    assert a == (" " + a)[1..] && b == (" " + b)[1..];
  }

  lemma SublistIsFound(find: seq<string>, keys: seq<string>, i: int)
    requires find != [] && SublistAt(find, keys, i)
    ensures Occurs(Delimited(find), Delimited(keys))
  {
    var before, after := keys[..i], keys[i + |find|..];
    var sb, sf, sa := Spaced(before), Spaced(find), Spaced(after);
    assert keys == before + (find + after);
    SpacedConcat(before, find + after);
    SpacedConcat(find, after);
    SpacedEnds(before);
    var text := " " + (sb + (sf + sa));
    assert Delimited(keys) == text;
    assert text[|sb|..] == " " + (sf + sa) by {
      if sb != "" { assert text == (" " + sb[..|sb| - 1]) + (" " + (sf + sa)); }
    }
    assert Delimited(find) <= text[|sb|..];
  }

  /** The string search succeeds exactly when the body is a contiguous sublist. */
  lemma SearchIffSublist(find: seq<string>, keys: seq<string>)
    requires find != [] && Clean(find) && Clean(keys)
    ensures Occurs(Delimited(find), Delimited(keys)) <==> exists i :: SublistAt(find, keys, i)
  {
    if Occurs(Delimited(find), Delimited(keys)) { SearchFindsSublist(find, keys); }
    if i :| SublistAt(find, keys, i) { SublistIsFound(find, keys, i); }
  }

  /** The string search for `find` says whether it is a contiguous sublist of `keys`. */
  ghost predicate SearchAgrees(find: seq<string>, keys: seq<string>) {
    Occurs(Delimited(find), Delimited(keys)) <==> exists i :: SublistAt(find, keys, i)
  }

  /** The keys taken apart at their spaces. */
  function Pieces(keys: seq<string>): seq<string> {
    if keys == [] then [] else Split(keys[0], {' '}) + Pieces(keys[1..])
  }

  lemma {:induction false} SplitSpaced(k: string)
    ensures Spaced(Split(k, {' '})) == k + " "
    ensures |Split(k, {' '})| > 1 <==> !NoneOf(k, {' '})
  {
    var pieces := Split(k, {' '});
    if k == "" {
      assert pieces[1..] == [];
      assert Spaced(pieces) == "" + " " + "";
    } else {
      var rest := Split(k[1..], {' '});
      SplitSpaced(k[1..]);
      assert k == [k[0]] + k[1..];
      assert forall c :: c in k <==> c == k[0] || c in k[1..];
      if k[0] == ' ' {
        assert pieces[0] == "" && pieces[1..] == rest;
      } else {
        assert pieces[0] == [k[0]] + rest[0] && pieces[1..] == rest[1..];
        assert Spaced(pieces) == [k[0]] + (rest[0] + " " + Spaced(rest[1..]));
      }
    }
  }

  lemma {:induction false} PiecesSpaced(keys: seq<string>)
    ensures Spaced(Pieces(keys)) == Spaced(keys) && Clean(Pieces(keys)) && |Pieces(keys)| >= |keys|
    ensures !Clean(keys) ==> |Pieces(keys)| > |keys|
  {
    if keys != [] {
      SplitSpaced(keys[0]);
      PiecesSpaced(keys[1..]);
      SpacedConcat(Split(keys[0], {' '}), Pieces(keys[1..]));
      assert keys == [keys[0]] + keys[1..];
      assert Clean(keys) <==> NoneOf(keys[0], {' '}) && Clean(keys[1..]);
    }
  }

  /** The search can be trusted, for every body without spaces, exactly when no key has a
      space: otherwise it finds the keys taken apart at their spaces, which are too many. */
  lemma SearchTrustedIffClean(keys: seq<string>)
    ensures Clean(keys) <==> forall find :: find != [] && Clean(find) ==> SearchAgrees(find, keys)
  {
    hide Clean, Occurs, Delimited, SublistAt;
    if Clean(keys) {
      forall find | find != [] && Clean(find) ensures SearchAgrees(find, keys) {
        SearchIffSublist(find, keys);
      }
    } else {
      PiecesSpaced(keys);
      PiecesMislead(keys);
    }
  }

  lemma PiecesMislead(keys: seq<string>)
    requires |Pieces(keys)| > |keys| && Spaced(Pieces(keys)) == Spaced(keys)
    ensures Pieces(keys) != [] && !SearchAgrees(Pieces(keys), keys)
  {
    var find := Pieces(keys);
    assert Delimited(find) <= Delimited(keys)[0..];
  }

  lemma {:induction false} SpacedEnds(keys: seq<string>)
    ensures Spaced(keys) == "" || Spaced(keys)[|Spaced(keys)| - 1] == ' '
    ensures keys != [] ==> Spaced(keys) != ""
  {
    if keys != [] { SpacedEnds(keys[1..]); }
  }

  /** For one: "d-a", "d-b" is found in the single key "d-a d-b". */
  lemma SpacedKeyMisleadsSearch()
    ensures Occurs(Delimited(["d-a", "d-b"]), Delimited(["d-a d-b"]))
    ensures !exists i :: SublistAt(["d-a", "d-b"], ["d-a d-b"], i)
  {
    var two, one := ["d-a", "d-b"], ["d-a d-b"];
    assert two[1..] == ["d-b"] && ["d-b"][1..] == [] && one[1..] == [];
    assert Spaced(["d-b"]) == "d-b ";
    assert Delimited(two) == Delimited(one) == " d-a d-b ";
    assert Delimited(two) <= Delimited(one)[0..];
  }
}
