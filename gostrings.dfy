/**
 * The parts of Go's `strings`, `strconv` and `fmt` packages that the
 * WireGuard wrapper relies on, written as functions over `string` (a
 * sequence of runes), together with the facts about them that the
 * registry, traffic and sysctl models need.
 */
module GoStrings {

  // ------------------------------------------------------------------
  // Runes
  // ------------------------------------------------------------------

  /** unicode.IsSpace: the runes that strings.TrimSpace trims and strings.Fields splits on. */
  predicate IsSpace(c: char) {
    || c == ' '
    || ('\t' <= c <= '\r')
    || c == '\U{0085}' || c == '\U{00A0}' || c == '\U{1680}'
    || ('\U{2000}' <= c <= '\U{200A}')
    || c == '\U{2028}' || c == '\U{2029}' || c == '\U{202F}' || c == '\U{205F}' || c == '\U{3000}'
  }

  predicate NoSpace(s: string) {
    forall i :: 0 <= i < |s| ==> !IsSpace(s[i])
  }

  predicate AllSpace(s: string) {
    forall i :: 0 <= i < |s| ==> IsSpace(s[i])
  }

  /** Neither end of s is white space (so strings.TrimSpace leaves s alone). */
  predicate Trimmed(s: string) {
    s == [] || (!IsSpace(s[0]) && !IsSpace(s[|s| - 1]))
  }

  predicate IsDigit(c: char) {
    '0' <= c <= '9'
  }

  // ------------------------------------------------------------------
  // Prefixes, suffixes, trimming
  // ------------------------------------------------------------------

  /** strings.HasPrefix */
  predicate HasPrefix(s: string, p: string) {
    |p| <= |s| && s[..|p|] == p
  }

  /** strings.HasSuffix */
  predicate HasSuffix(s: string, x: string) {
    |x| <= |s| && s[|s| - |x|..] == x
  }

  /** strings.TrimPrefix */
  function TrimPrefix(s: string, p: string): (r: string)
    ensures HasPrefix(s, p) ==> p + r == s
    ensures !HasPrefix(s, p) ==> r == s
  {
    if HasPrefix(s, p) then s[|p|..] else s
  }

  /** strings.TrimSuffix */
  function TrimSuffix(s: string, x: string): (r: string)
    ensures HasSuffix(s, x) ==> r + x == s
    ensures !HasSuffix(s, x) ==> r == s
  {
    if HasSuffix(s, x) then s[..|s| - |x|] else s
  }

  lemma TrimPrefixAppend(p: string, s: string)
    ensures TrimPrefix(p + s, p) == s
  {
    assert (p + s)[..|p|] == p;
    assert (p + s)[|p|..] == s;
  }

  lemma TrimSuffixAppend(s: string, x: string)
    ensures TrimSuffix(s + x, x) == s
  {
    assert (s + x)[|s|..] == x;
    assert (s + x)[..|s|] == s;
  }

  /** strings.TrimLeftFunc(s, unicode.IsSpace): the longest suffix of s that does not start with white space. */
  function TrimLeftSpace(s: string): (r: string)
    ensures |r| <= |s| && r == s[|s| - |r|..]
    ensures r == [] || !IsSpace(r[0])
    ensures forall i :: 0 <= i < |s| - |r| ==> IsSpace(s[i])
  {
    if s != [] && IsSpace(s[0]) then
      var r := TrimLeftSpace(s[1..]);
      assert forall i :: 1 <= i < |s| - |r| ==> s[i] == s[1..][i - 1];
      r
    else s
  }

  /** strings.TrimRightFunc(s, unicode.IsSpace): the longest prefix of s that does not end with white space. */
  function TrimRightSpace(s: string): (r: string)
    ensures |r| <= |s| && r == s[..|r|]
    ensures r == [] || !IsSpace(r[|r| - 1])
    ensures forall i :: |r| <= i < |s| ==> IsSpace(s[i])
  {
    if s != [] && IsSpace(s[|s| - 1]) then
      var r := TrimRightSpace(s[..|s| - 1]);
      assert forall i :: |r| <= i < |s| - 1 ==> s[i] == s[..|s| - 1][i];
      r
    else s
  }

  /** strings.TrimSpace */
  function TrimSpace(s: string): (r: string)
    ensures Trimmed(r)
  {
    TrimRightSpace(TrimLeftSpace(s))
  }

  /** Trimming white space off a string padded with white space gives back the unpadded string. */
  lemma TrimSpacePadded(a: string, s: string, b: string)
    requires AllSpace(a) && AllSpace(b) && Trimmed(s)
    ensures TrimSpace(a + s + b) == s
  {
    if s == [] {
      assert a + s + b == a + b;
      var t := a + b;
      assert forall i :: 0 <= i < |t| ==> IsSpace(t[i]);
      assert TrimLeftSpace(t) == [];
    } else {
      assert a + s + b == a + (s + b);
      TrimLeftPadded(a, s + b);
      TrimRightPadded(s, b);
    }
  }

  /** Left trimming drops white-space padding in front of a string that does not start with white space. */
  lemma TrimLeftPadded(a: string, x: string)
    requires AllSpace(a) && x != [] && !IsSpace(x[0])
    ensures TrimLeftSpace(a + x) == x
  {
    var t := a + x;
    var l := TrimLeftSpace(t);
    assert t[|a|] == x[0];
    assert forall i :: 0 <= i < |a| ==> t[i] == a[i];
    assert |l| == |x|;
    assert t[|a|..] == x;
  }

  /** Right trimming drops white-space padding behind a string that does not end with white space. */
  lemma TrimRightPadded(x: string, b: string)
    requires AllSpace(b) && x != [] && !IsSpace(x[|x| - 1])
    ensures TrimRightSpace(x + b) == x
  {
    var t := x + b;
    var r := TrimRightSpace(t);
    assert t[|x| - 1] == x[|x| - 1];
    assert forall i :: |x| <= i < |t| ==> t[i] == b[i - |x|];
    assert |r| == |x|;
    assert t[..|x|] == x;
  }

  lemma TrimSpaceOfTrimmed(s: string)
    requires Trimmed(s)
    ensures TrimSpace(s) == s
  {
    TrimSpacePadded([], s, []);
    assert [] + s + [] == s;
  }

  // ------------------------------------------------------------------
  // Searching: strings.Index, strings.Contains, strings.Replace(_, _, "", 1)
  // ------------------------------------------------------------------

  /** p occurs in s starting at position i. */
  predicate OccursAt(s: string, p: string, i: int) {
    0 <= i && i + |p| <= |s| && s[i..i + |p|] == p
  }

  function IndexFrom(s: string, p: string, k: nat): (r: int)
    ensures r == -1 || (k <= r && OccursAt(s, p, r))
    ensures forall i :: k <= i && (r == -1 || i < r) ==> !OccursAt(s, p, i)
    decreases |s| - k
  {
    if k + |p| > |s| then -1
    else if s[k..k + |p|] == p then k
    else IndexFrom(s, p, k + 1)
  }

  /** strings.Index: the first position at which p occurs in s, or -1. */
  function Index(s: string, p: string): (r: int)
    ensures r == -1 <==> forall i :: !OccursAt(s, p, i)
    ensures r != -1 ==> OccursAt(s, p, r) && forall i :: 0 <= i < r ==> !OccursAt(s, p, i)
  {
    IndexFrom(s, p, 0)
  }

  /** strings.Contains */
  predicate Contains(s: string, p: string) {
    Index(s, p) >= 0
  }

  /** An occurrence with nothing before it is the one strings.Index reports. */
  lemma IndexIsFirst(s: string, p: string, j: int)
    requires OccursAt(s, p, j)
    requires forall i :: 0 <= i < j ==> !OccursAt(s, p, i)
    ensures Index(s, p) == j
  {
  }

  lemma ContainsAt(s: string, p: string, j: int)
    requires OccursAt(s, p, j)
    ensures Contains(s, p)
  {
  }

  /** Appending text after s does not move the first occurrence of p inside s. */
  lemma {:induction false} IndexAppend(s: string, t: string, p: string)
    requires Contains(s, p)
    ensures Index(s + t, p) == Index(s, p)
  {
    var j := Index(s, p);
    assert (s + t)[j..j + |p|] == s[j..j + |p|];
    forall i | 0 <= i < j
      ensures !OccursAt(s + t, p, i)
    {
      if OccursAt(s + t, p, i) {
        assert (s + t)[i..i + |p|] == s[i..i + |p|];
        assert OccursAt(s, p, i);
        assert false;
      }
    }
    IndexIsFirst(s + t, p, j);
  }

  lemma ContainsAppend(s: string, t: string, p: string)
    requires Contains(s, p)
    ensures Contains(s + t, p)
  {
    IndexAppend(s, t, p);
  }

  lemma ContainsPrepend(s: string, t: string, p: string)
    requires Contains(t, p)
    ensures Contains(s + t, p)
  {
    var j := Index(t, p);
    assert (s + t)[|s| + j..|s| + j + |p|] == t[j..j + |p|];
    ContainsAt(s + t, p, |s| + j);
  }

  lemma ContainsSelf(p: string)
    ensures Contains(p, p)
  {
    assert p[0..|p|] == p;
    ContainsAt(p, p, 0);
  }

  /** If q occurs in s and p occurs in q at offset k, then p occurs in s. */
  lemma ContainsTransitive(s: string, q: string, p: string)
    requires Contains(s, q) && Contains(q, p)
    ensures Contains(s, p)
  {
    var i := Index(s, q);
    var k := Index(q, p);
    assert s[i..i + |q|] == q;
    assert q[k..k + |p|] == p;
    var w := s[i + k..i + k + |p|];
    assert forall j :: 0 <= j < |p| ==> w[j] == q[k..k + |p|][j];
    assert w == p;
    ContainsAt(s, p, i + k);
  }

  /** An occurrence of p starts at an occurrence of p's first rune. */
  lemma OccurrenceStartsWithHead(s: string, p: string, i: int)
    requires OccursAt(s, p, i) && p != []
    ensures s[i] == p[0]
  {
    assert s[i..i + |p|][0] == s[i];
  }

  /**
   * strings.Replace(s, p, "", 1): s itself when p is empty or absent;
   * otherwise s with the copy of p at its first occurrence cut out.
   */
  function RemoveFirst(s: string, p: string): (r: string)
    ensures p == [] || !Contains(s, p) ==> r == s
    ensures p != [] && Contains(s, p) ==> |r| == |s| - |p|
  {
    if p == [] then s
    else
      var i := Index(s, p);
      if i < 0 then s else s[..i] + s[i + |p|..]
  }

  /** What RemoveFirst cut out goes back in at the index of the first occurrence of p. */
  lemma RemoveFirstPutBack(s: string, p: string)
    requires p != [] && Contains(s, p)
    ensures Index(s, p) <= |RemoveFirst(s, p)|
    ensures s == RemoveFirst(s, p)[..Index(s, p)] + p + RemoveFirst(s, p)[Index(s, p)..]
  {
    var i := Index(s, p);
    var r := RemoveFirst(s, p);
    assert r[..i] == s[..i] && r[i..] == s[i + |p|..];
    assert s == s[..i] + s[i..i + |p|] + s[i + |p|..];
  }

  /** Removing p from s + t, when p already occurs in s, takes it out of s and leaves t alone. */
  lemma RemoveFirstAppend(s: string, t: string, p: string)
    requires Contains(s, p)
    ensures RemoveFirst(s + t, p) == RemoveFirst(s, p) + t
  {
    if p != [] {
      IndexAppend(s, t, p);
      ContainsAppend(s, t, p);
      var i := Index(s, p);
      RemoveFirstAt(s, p);
      RemoveFirstAt(s + t, p);
      assert (s + t)[..i] == s[..i];
      assert (s + t)[i + |p|..] == s[i + |p|..] + t;
    }
  }

  /** Where p occurs, RemoveFirst cuts out the copy at Index(s, p). */
  lemma RemoveFirstAt(s: string, p: string)
    requires p != [] && Contains(s, p)
    ensures RemoveFirst(s, p) == s[..Index(s, p)] + s[Index(s, p) + |p|..]
  {
  }

  /** When the first occurrence of p in s + p is the appended copy, removing it gives s back. */
  lemma RemoveFirstOfAppended(s: string, p: string)
    requires p != [] && Index(s + p, p) == |s|
    ensures RemoveFirst(s + p, p) == s
  {
    assert (s + p)[..|s|] == s;
  }

  // ------------------------------------------------------------------
  // strings.Join, strings.Split (one-rune separator), strings.Fields
  // ------------------------------------------------------------------

  /** strings.Join */
  function Join(xs: seq<string>, sep: string): string {
    if xs == [] then []
    else if |xs| == 1 then xs[0]
    else xs[0] + sep + Join(xs[1..], sep)
  }

  /** strings.Split(s, string(c)): the pieces of s between occurrences of c. */
  function Split(s: string, c: char): (r: seq<string>)
    ensures |r| >= 1
    ensures forall i :: 0 <= i < |r| ==> c !in r[i]
    decreases |s|
  {
    if s == [] then [[]]
    else
      var rest := Split(s[1..], c);
      if s[0] == c then [[]] + rest else [[s[0]] + rest[0]] + rest[1..]
  }

  /** Joining the pieces of a split with the separator gives back the text. */
  lemma {:induction false} JoinSplit(s: string, c: char)
    ensures Join(Split(s, c), [c]) == s
  {
    if s != [] {
      var rest := Split(s[1..], c);
      JoinSplit(s[1..], c);
      if s[0] == c {
        assert Join([[]] + rest, [c]) == [] + [c] + Join(rest, [c]);
      } else {
        var r := [[s[0]] + rest[0]] + rest[1..];
        if |rest| == 1 {
          assert Join(r, [c]) == [s[0]] + rest[0];
        } else {
          assert r[1..] == rest[1..];
          assert Join(r, [c]) == [s[0]] + rest[0] + [c] + Join(rest[1..], [c]);
          assert Join(rest, [c]) == rest[0] + [c] + Join(rest[1..], [c]);
        }
      }
    }
  }

  /** Text on both sides of a separator splits independently. */
  lemma {:induction false} SplitAround(a: string, b: string, c: char)
    ensures Split(a + [c] + b, c) == Split(a, c) + Split(b, c)
  {
    var s := a + [c] + b;
    if a == [] {
      assert s == [c] + b;
      assert s[0] == c && s[1..] == b;
      assert Split(s, c) == [[]] + Split(b, c);
    } else {
      var t := a[1..] + [c] + b;
      assert s[0] == a[0] && s[1..] == t;
      SplitAround(a[1..], b, c);
      var sa := Split(a[1..], c);
      var sb := Split(b, c);
      var rest := Split(t, c);
      assert rest == sa + sb;
      if a[0] == c {
        assert Split(s, c) == [[]] + rest;
        assert Split(a, c) == [[]] + sa;
      } else {
        assert Split(s, c) == [[a[0]] + rest[0]] + rest[1..];
        assert Split(a, c) == [[a[0]] + sa[0]] + sa[1..];
        ExtendFirstPiece([a[0]], sa, sb);
      }
    }
  }

  /** Extending the first piece of xs + ys, when xs has one, extends the first piece of xs. */
  lemma ExtendFirstPiece(x: string, xs: seq<string>, ys: seq<string>)
    requires |xs| >= 1
    ensures [x + (xs + ys)[0]] + (xs + ys)[1..] == ([x + xs[0]] + xs[1..]) + ys
  {
    assert (xs + ys)[1..] == xs[1..] + ys;
  }

  lemma {:induction false} SplitNoSeparator(a: string, c: char)
    requires c !in a
    ensures Split(a, c) == [a]
  {
    if a != [] {
      assert c !in a[1..] by {
        forall i | 0 <= i < |a[1..]| ensures a[1..][i] != c {
          assert a[1..][i] == a[i + 1];
        }
      }
      SplitNoSeparator(a[1..], c);
      assert [a[0]] + a[1..] == a;
    }
  }

  lemma SplitSeparated(a: string, b: string, c: char)
    requires c !in a
    ensures Split(a + [c] + b, c) == [a] + Split(b, c)
  {
    SplitAround(a, b, c);
    SplitNoSeparator(a, c);
  }

  /** Splitting the join of separator-free pieces gives back the pieces. */
  lemma {:induction false} SplitJoin(xs: seq<string>, c: char)
    requires |xs| >= 1
    requires forall i :: 0 <= i < |xs| ==> c !in xs[i]
    ensures Split(Join(xs, [c]), c) == xs
  {
    if |xs| == 1 {
      SplitNoSeparator(xs[0], c);
    } else {
      SplitJoin(xs[1..], c);
      SplitSeparated(xs[0], Join(xs[1..], [c]), c);
      assert [xs[0]] + xs[1..] == xs;
    }
  }

  /** The length of the leading run of non-space runes. */
  function WordLength(s: string): (n: nat)
    ensures n <= |s|
    ensures forall i :: 0 <= i < n ==> !IsSpace(s[i])
    ensures n < |s| ==> IsSpace(s[n])
  {
    if s == [] || IsSpace(s[0]) then 0 else 1 + WordLength(s[1..])
  }

  /** strings.Fields: the maximal runs of non-space runes, in order. */
  function Fields(s: string): (r: seq<string>)
    ensures forall i :: 0 <= i < |r| ==> r[i] != [] && NoSpace(r[i])
    decreases |s|
  {
    if s == [] then []
    else if IsSpace(s[0]) then Fields(s[1..])
    else
      var n := WordLength(s);
      [s[..n]] + Fields(s[n..])
  }

  lemma {:induction false} WordLengthOfWord(w: string, t: string)
    requires NoSpace(w)
    requires t == [] || IsSpace(t[0])
    ensures WordLength(w + t) == |w|
  {
    if w == [] {
      assert w + t == t;
    } else {
      assert (w + t)[1..] == w[1..] + t;
      WordLengthOfWord(w[1..], t);
    }
  }

  /** Fields undoes joining non-empty, space-free words with single spaces. */
  lemma {:induction false} FieldsOfWords(ws: seq<string>)
    requires forall i :: 0 <= i < |ws| ==> ws[i] != [] && NoSpace(ws[i])
    ensures Fields(Join(ws, " ")) == ws
  {
    if |ws| == 1 {
      var w := ws[0];
      WordLengthOfWord(w, []);
      assert w + [] == w;
      assert w[|w|..] == [];
    } else if |ws| > 1 {
      var w := ws[0];
      var rest := Join(ws[1..], " ");
      var s := w + " " + rest;
      assert s == w + (" " + rest);
      WordLengthOfWord(w, " " + rest);
      assert s[..|w|] == w;
      assert s[|w|..] == " " + rest;
      assert (" " + rest)[1..] == rest;
      FieldsOfWords(ws[1..]);
      assert [w] + ws[1..] == ws;
    }
  }

  // ------------------------------------------------------------------
  // Decimal integers: fmt's %d and its inverse
  // ------------------------------------------------------------------

  function DigitChar(d: nat): (c: char)
    requires d < 10
    ensures IsDigit(c)
  {
    (d + '0' as int) as char
  }

  function DigitValue(c: char): nat {
    if IsDigit(c) then c as int - '0' as int else 0
  }

  /** Decimal digits of n, most significant first, with no leading zero. */
  function NatToString(n: nat): (r: string)
    ensures r != [] && forall i :: 0 <= i < |r| ==> IsDigit(r[i])
  {
    if n < 10 then [DigitChar(n)] else NatToString(n / 10) + [DigitChar(n % 10)]
  }

  /** fmt.Sprintf("%d", n) for a Go int. */
  function IntToString(n: int): string {
    if n < 0 then "-" + NatToString(-n) else NatToString(n)
  }

  function ParseNat(s: string): nat {
    if s == [] then 0 else ParseNat(s[..|s| - 1]) * 10 + DigitValue(s[|s| - 1])
  }

  /** strconv.Atoi on the strings that %d produces. */
  function ParseInt(s: string): int {
    if s != [] && s[0] == '-' then 0 - ParseNat(s[1..]) else ParseNat(s)
  }

  lemma {:induction false} ParseNatToString(n: nat)
    ensures ParseNat(NatToString(n)) == n
  {
    if n >= 10 {
      ParseNatToString(n / 10);
      var s := NatToString(n);
      assert s[..|s| - 1] == NatToString(n / 10);
    }
  }

  /** Reading back what %d printed gives the number. */
  lemma IntToStringRoundTrip(n: int)
    ensures ParseInt(IntToString(n)) == n
  {
    if n < 0 {
      ParseNatToString(-n);
      assert IntToString(n)[1..] == NatToString(-n);
    } else {
      ParseNatToString(n);
    }
  }

  lemma IntToStringInjective(a: int, b: int)
    requires IntToString(a) == IntToString(b)
    ensures a == b
  {
    IntToStringRoundTrip(a);
    IntToStringRoundTrip(b);
  }
}
