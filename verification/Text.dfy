/** String operations the sources take from boost and the C library: splitting,
    decimal numbers, prefixes, trimming, case folding and substring search. */
module Text {

  const INT_MAX: int := 0x7fff_ffff

  predicate NoneOf(s: string, seps: set<char>) {
    forall c :: c in s ==> c !in seps
  }

  /** `algo::split` without token compression: n separators give n + 1 pieces. */
  function Split(s: string, seps: set<char>): (r: seq<string>)
    ensures |r| >= 1
    ensures forall p :: p in r ==> NoneOf(p, seps)
  {
    if s == "" then [""]
    else
      var rest := Split(s[1..], seps);
      if s[0] in seps then [""] + rest
      else
        assert rest[0] in rest;
        [[s[0]] + rest[0]] + rest[1..]
  }

  lemma {:induction false} SplitWhole(a: string, seps: set<char>)
    requires NoneOf(a, seps)
    ensures Split(a, seps) == [a]
  {
    if a != "" {
      assert a[0] in a;
      SplitWhole(a[1..], seps);
      assert a == [a[0]] + a[1..];
    }
  }

  lemma {:induction false} SplitFirst(a: string, c: char, rest: string, seps: set<char>)
    requires NoneOf(a, seps) && c in seps
    ensures Split(a + [c] + rest, seps) == [a] + Split(rest, seps)
  {
    var s := a + [c] + rest;
    if a == "" {
      assert s[1..] == rest;
    } else {
      assert a[0] in a;
      SplitFirst(a[1..], c, rest, seps);
      assert s[1..] == a[1..] + [c] + rest;
      assert a == [a[0]] + a[1..];
    }
  }

  /** A separator parts the pieces before it from those after it. */
  lemma {:induction false} SplitJoin(a: string, c: char, b: string, seps: set<char>)
    requires c in seps
    ensures Split(a + [c] + b, seps) == Split(a, seps) + Split(b, seps)
  {
    var s := a + [c] + b;
    if a == "" {
      assert s[1..] == b;
    } else {
      SplitJoin(a[1..], c, b, seps);
      assert s[1..] == a[1..] + [c] + b && s[0] == a[0];
    }
  }

  /** "/" + v for every v, which is how markers and virtual names are printed. */
  function Slashed(parts: seq<string>): string {
    if parts == [] then "" else "/" + parts[0] + Slashed(parts[1..])
  }

  lemma {:induction false} SlashedSplit(a: string, parts: seq<string>)
    requires NoneOf(a, {'/'})
    requires forall p :: p in parts ==> NoneOf(p, {'/'})
    ensures Split(a + Slashed(parts), {'/'}) == [a] + parts
    decreases |parts|
  {
    if parts == [] {
      SplitWhole(a, {'/'});
      assert a + "" == a;
    } else {
      SlashedSplit(parts[0], parts[1..]);
      SplitFirst(a, '/', parts[0] + Slashed(parts[1..]), {'/'});
      assert a + Slashed(parts) == a + ['/'] + (parts[0] + Slashed(parts[1..]));
      assert parts == [parts[0]] + parts[1..];
    }
  }

  predicate IsDigit(c: char) { '0' <= c <= '9' }

  /** The regular expression "^([0-9]+)$". */
  predicate AllDigits(s: string) {
    s != "" && forall i :: 0 <= i < |s| ==> IsDigit(s[i])
  }

  function Decimal(n: nat): (s: string)
    ensures AllDigits(s)
  {
    var last := [('0' as int + n % 10) as char];
    if n < 10 then last else Decimal(n / 10) + last
  }

  function ParseNat(s: string): nat
    requires s == "" || AllDigits(s)
  {
    if s == "" then 0
    else
      var front := s[..|s| - 1];
      10 * ParseNat(front) + (s[|s| - 1] as int - '0' as int)
  }

  lemma {:induction false} ParseDecimal(n: nat)
    ensures ParseNat(Decimal(n)) == n
  {
    var s := Decimal(n);
    if n >= 10 {
      ParseDecimal(n / 10);
      assert s[..|s| - 1] == Decimal(n / 10);
    } else {
      assert s[..0] == "";
    }
  }

  /** `stringstream >> int`: a number that does not fit becomes the largest int. */
  function ParseOrder(s: string): (n: int)
    requires AllDigits(s)
    ensures 0 <= n <= INT_MAX
  {
    var n := ParseNat(s);
    if n > INT_MAX then INT_MAX else n
  }

  predicate StartsWith(s: string, p: string) { p <= s }

  /** `find(pat) != npos`, and `algo::contains`. */
  predicate Occurs(pat: string, s: string) {
    exists i | 0 <= i <= |s| :: pat <= s[i..]
  }

  lemma OccursChar(c: char, s: string)
    ensures Occurs([c], s) <==> c in s
  {
    if Occurs([c], s) {
      var i :| 0 <= i <= |s| && [c] <= s[i..];
      assert s[i..][0] == [c][0];
    }
    if c in s {
      var i :| 0 <= i < |s| && s[i] == c;
      assert s[i..][0] == c;
    }
  }

  function LowerChar(c: char): char {
    if 'A' <= c <= 'Z' then (c as int + 32) as char else c
  }

  /** `lc`, with `tolower` of the C locale. */
  function Lower(s: string): (r: string)
    ensures |r| == |s|
    ensures forall i :: 0 <= i < |s| ==> r[i] == LowerChar(s[i])
  {
    seq(|s|, i requires 0 <= i < |s| => LowerChar(s[i]))
  }

  function TrimLeft(s: string, cs: set<char>): (r: string)
    ensures r == "" || r[0] !in cs
  {
    if s != "" && s[0] in cs then TrimLeft(s[1..], cs) else s
  }

  function TrimRight(s: string, cs: set<char>): (r: string)
    ensures r == "" || r[|r| - 1] !in cs
  {
    if s != "" && s[|s| - 1] in cs then TrimRight(s[..|s| - 1], cs) else s
  }

  function Trim(s: string, cs: set<char>): string {
    TrimRight(TrimLeft(s, cs), cs)
  }
}
