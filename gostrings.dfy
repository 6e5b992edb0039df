/** The parts of Go's `strings` and `sort` packages that the fuzzer relies on.
    A Go string is a sequence of bytes; here each `char` stands for one byte. */
module GoStrings {
  import opened Wrappers

  /** `strings.HasPrefix(s, prefix)` */
  predicate HasPrefix(s: string, prefix: string) {
    |prefix| <= |s| && s[..|prefix|] == prefix
  }

  /** `sub` occurs in `s` starting at position `i`. */
  predicate OccursAt(s: string, sub: string, i: int) {
    0 <= i && i + |sub| <= |s| && s[i..i + |sub|] == sub
  }

  /** `strings.Index(s, sub)`: the first position of `sub` in `s`, or -1. */
  function Index(s: string, sub: string): (r: int)
    ensures -1 <= r <= |s|
    ensures r >= 0 ==> OccursAt(s, sub, r)
    ensures r >= 0 ==> forall j :: 0 <= j < r ==> !OccursAt(s, sub, j)
    ensures r == -1 ==> forall j :: 0 <= j <= |s| ==> !OccursAt(s, sub, j)
    decreases |s|
  {
    if HasPrefix(s, sub) then 0
    else if s == [] then -1
    else
      var k := Index(s[1..], sub);
      assert forall j :: 1 <= j <= |s| ==> (OccursAt(s, sub, j) <==> OccursAt(s[1..], sub, j - 1));
      if k < 0 then -1 else k + 1
  }

  /** `strings.Contains(s, sub)` */
  predicate Contains(s: string, sub: string) {
    Index(s, sub) >= 0
  }

  lemma ContainsIff(s: string, sub: string)
    ensures Contains(s, sub) <==> exists j :: OccursAt(s, sub, j)
  {
    if !Contains(s, sub) {
      forall j ensures !OccursAt(s, sub, j) {
        if 0 <= j <= |s| { } else { }
      }
    }
  }

  /** For a one-character needle, `strings.Contains` is sequence membership. */
  lemma ContainsChar(s: string, c: char)
    ensures Contains(s, [c]) <==> c in s
  {
    ContainsIff(s, [c]);
    if c in s {
      var j :| 0 <= j < |s| && s[j] == c;
      assert OccursAt(s, [c], j);
    }
    if Contains(s, [c]) {
      var j :| OccursAt(s, [c], j);
      assert s[j] == s[j..j + 1][0];
    }
  }

  /** ASCII case mapping of one byte. */
  function LowerChar(c: char): char {
    if 'A' <= c <= 'Z' then (c as int + 32) as char else c
  }

  function UpperChar(c: char): char {
    if 'a' <= c <= 'z' then (c as int - 32) as char else c
  }

  /** `strings.ToLower`, restricted to ASCII letters. */
  function ToLower(s: string): (r: string)
    ensures |r| == |s|
  {
    seq(|s|, i requires 0 <= i < |s| => LowerChar(s[i]))
  }

  /** The bytes `unicode.IsSpace` accepts in the ASCII range. */
  predicate IsSpace(c: char) {
    c == ' ' || '\t' <= c <= '\r'
  }

  function TrimLeft(s: string): string
    decreases |s|
  {
    if |s| > 0 && IsSpace(s[0]) then TrimLeft(s[1..]) else s
  }

  function TrimRight(s: string): string
    decreases |s|
  {
    if |s| > 0 && IsSpace(s[|s| - 1]) then TrimRight(s[..|s| - 1]) else s
  }

  /** `strings.TrimSpace`: the input without leading and trailing white space. */
  function TrimSpace(s: string): string {
    TrimRight(TrimLeft(s))
  }

  /** Trimming on the left keeps a suffix of the input and drops exactly its leading white
      space. */
  lemma {:induction false} TrimLeftDropsSpace(s: string)
    ensures var r := TrimLeft(s);
      && |r| <= |s| && r == s[|s| - |r|..]
      && (forall i :: 0 <= i < |s| - |r| ==> IsSpace(s[i]))
      && (r != [] ==> !IsSpace(r[0]))
    decreases |s|
  {
    if |s| > 0 && IsSpace(s[0]) {
      TrimLeftDropsSpace(s[1..]);
    }
  }

  /** Trimming on the right keeps a prefix of the input and drops exactly its trailing white
      space. */
  lemma {:induction false} TrimRightDropsSpace(s: string)
    ensures var r := TrimRight(s);
      && |r| <= |s| && r == s[..|r|]
      && (forall i :: |r| <= i < |s| ==> IsSpace(s[i]))
      && (r != [] ==> !IsSpace(r[|r| - 1]))
    decreases |s|
  {
    if |s| > 0 && IsSpace(s[|s| - 1]) {
      TrimRightDropsSpace(s[..|s| - 1]);
    }
  }

  /** The trimmed text neither starts nor ends with white space, and a text without white space
      at either end is kept as it is. */
  lemma TrimSpaceTrims(s: string)
    ensures var r := TrimSpace(s);
      && |r| <= |s|
      && (r != [] ==> !IsSpace(r[0]) && !IsSpace(r[|r| - 1]))
      && (s == [] || (!IsSpace(s[0]) && !IsSpace(s[|s| - 1])) ==> r == s)
  {
    var l := TrimLeft(s);
    TrimLeftDropsSpace(s);
    TrimRightDropsSpace(l);
    var r := TrimRight(l);
    if r != [] {
      assert r[0] == l[0];
    }
  }

  /** Trimming twice is trimming once. */
  lemma TrimSpaceIdempotent(s: string)
    ensures TrimSpace(TrimSpace(s)) == TrimSpace(s)
  {
    TrimSpaceTrims(s);
    TrimSpaceTrims(TrimSpace(s));
  }

  /** `strings.Split(s, sep)` for a non-empty separator: the pieces between the
      occurrences of `sep`, found left to right. */
  function Split(s: string, sep: string): (parts: seq<string>)
    requires sep != ""
    ensures |parts| >= 1
    ensures Contains(s, sep) <==> |parts| >= 2
    ensures Contains(s, sep) ==> parts[0] == s[..Index(s, sep)]
    ensures !Contains(s, sep) ==> parts == [s]
    decreases |s|
  {
    var i := Index(s, sep);
    if i < 0 then [s] else [s[..i]] + Split(s[i + |sep|..], sep)
  }

  /** `strings.Join(parts, sep)` */
  function Join(parts: seq<string>, sep: string): string
  {
    if |parts| == 0 then ""
    else if |parts| == 1 then parts[0]
    else parts[0] + sep + Join(parts[1..], sep)
  }

  /** Split and Join are inverse: joining the pieces with the separator gives back the input. */
  lemma {:induction false} JoinSplit(s: string, sep: string)
    requires sep != ""
    ensures Join(Split(s, sep), sep) == s
    decreases |s|
  {
    var i := Index(s, sep);
    if i >= 0 {
      var rest := s[i + |sep|..];
      var tail := Split(rest, sep);
      calc {
        Join(Split(s, sep), sep);
      == { assert Split(s, sep) == [s[..i]] + tail; }
        Join([s[..i]] + tail, sep);
      == { JoinCons(s[..i], tail, sep); }
        s[..i] + sep + Join(tail, sep);
      == { JoinSplit(rest, sep); }
        s[..i] + sep + rest;
      == { AroundOccurrence(s, sep, i); }
        s;
      }
    }
  }

  /** A string is the text before an occurrence, the occurrence, and the text after it. */
  lemma AroundOccurrence(s: string, sub: string, i: int)
    requires OccursAt(s, sub, i)
    ensures s == s[..i] + sub + s[i + |sub|..]
  {
    assert s == s[..i] + s[i..i + |sub|] + s[i + |sub|..];
  }

  /** No piece of `strings.Split` holds the separator. */
  lemma {:induction false} SplitPiecesFree(s: string, sep: string)
    requires sep != ""
    ensures forall k :: 0 <= k < |Split(s, sep)| ==> !Contains(Split(s, sep)[k], sep)
    decreases |s|
  {
    var i := Index(s, sep);
    if i >= 0 {
      var rest := s[i + |sep|..];
      var tail := Split(rest, sep);
      SplitPiecesFree(rest, sep);
      NoEarlierOccurrence(s, sep, i);
      var parts := Split(s, sep);
      assert parts == [s[..i]] + tail;
      forall k | 0 <= k < |parts| ensures !Contains(parts[k], sep) {
        if k > 0 {
          assert parts[k] == tail[k - 1];
        }
      }
    }
  }

  lemma JoinCons(x: string, rest: seq<string>, sep: string)
    requires rest != []
    ensures Join([x] + rest, sep) == x + sep + Join(rest, sep)
  {
    assert ([x] + rest)[1..] == rest;
  }

  /** The prefix of `s` before the first occurrence of `sep` does not contain `sep`. */
  lemma NoEarlierOccurrence(s: string, sep: string, i: int)
    requires sep != "" && 0 <= i <= |s| && Index(s, sep) == i
    ensures !Contains(s[..i], sep)
  {
    ContainsIff(s[..i], sep);
    forall j | 0 <= j && j + |sep| <= i ensures OccursAt(s[..i], sep, j) == OccursAt(s, sep, j) {
      assert s[..i][j..j + |sep|] == s[j..j + |sep|];
    }
  }

  /** Byte-wise lexicographic order on strings, the order `sort.Strings` uses. */
  predicate LessEq(a: string, b: string)
    decreases |a|
  {
    a == [] || (b != [] && (a[0] < b[0] || (a[0] == b[0] && LessEq(a[1..], b[1..]))))
  }

  lemma {:induction false} LessEqReflexive(a: string)
    ensures LessEq(a, a)
    decreases |a|
  {
    if a != [] { LessEqReflexive(a[1..]); }
  }

  lemma {:induction false} LessEqTotal(a: string, b: string)
    ensures LessEq(a, b) || LessEq(b, a)
    decreases |a|
  {
    if a != [] && b != [] && a[0] == b[0] {
      LessEqTotal(a[1..], b[1..]);
    }
  }

  lemma {:induction false} LessEqAntisymmetric(a: string, b: string)
    requires LessEq(a, b) && LessEq(b, a)
    ensures a == b
    decreases |a|
  {
    if a != [] && b != [] {
      LessEqAntisymmetric(a[1..], b[1..]);
      assert a == [a[0]] + a[1..] && b == [b[0]] + b[1..];
    }
  }

  lemma {:induction false} LessEqTransitive(a: string, b: string, c: string)
    requires LessEq(a, b) && LessEq(b, c)
    ensures LessEq(a, c)
    decreases |a|
  {
    if a != [] && b != [] && c != [] && a[0] == b[0] && b[0] == c[0] {
      LessEqTransitive(a[1..], b[1..], c[1..]);
    }
  }

  predicate Sorted(s: seq<string>) {
    forall i, j :: 0 <= i < j < |s| ==> LessEq(s[i], s[j])
  }

  function Insert(x: string, s: seq<string>): (r: seq<string>)
    requires Sorted(s)
    ensures Sorted(r)
    ensures multiset(r) == multiset(s) + multiset{x}
  {
    if s == [] then [x]
    else if LessEq(x, s[0]) then
      assert forall j :: 0 <= j < |s| ==> LessEq(x, s[j]) by {
        forall j | 0 <= j < |s| ensures LessEq(x, s[j]) {
          if j > 0 { LessEqTransitive(x, s[0], s[j]); }
        }
      }
      [x] + s
    else
      var t := Insert(x, s[1..]);
      assert s == [s[0]] + s[1..];
      assert Sorted([s[0]] + t) by {
        forall j | 0 <= j < |t| ensures LessEq(s[0], t[j]) {
          assert t[j] in multiset(t);
          if t[j] == x {
            LessEqTotal(x, s[0]);
          } else {
            var k :| 0 <= k < |s[1..]| && s[1..][k] == t[j];
            assert s[k + 1] == t[j];
          }
        }
        ConsSorted(s[0], t);
      }
      [s[0]] + t
  }

  lemma ConsSorted(h: string, t: seq<string>)
    requires Sorted(t) && forall j :: 0 <= j < |t| ==> LessEq(h, t[j])
    ensures Sorted([h] + t)
  {
    var r := [h] + t;
    forall i, j | 0 <= i < j < |r| ensures LessEq(r[i], r[j]) {
      assert r[j] == t[j - 1];
      if i > 0 {
        assert r[i] == t[i - 1];
      }
    }
  }

  /** `sort.Strings`: the same strings, in byte-wise order. */
  function Sort(s: seq<string>): (r: seq<string>)
    ensures Sorted(r)
    ensures multiset(r) == multiset(s)
  {
    if s == [] then []
    else
      assert s == [s[0]] + s[1..];
      Insert(s[0], Sort(s[1..]))
  }

  /** The head of a sorted sequence is below every element of it. */
  lemma HeadIsLeast(a: seq<string>, x: string)
    requires Sorted(a) && x in multiset(a)
    ensures LessEq(a[0], x)
  {
    var i :| 0 <= i < |a| && a[i] == x;
    if i == 0 { LessEqReflexive(x); }
  }

  lemma Tail(a: seq<string>)
    requires Sorted(a) && a != []
    ensures Sorted(a[1..])
    ensures multiset(a[1..]) == multiset(a) - multiset{a[0]}
  {
    assert a == [a[0]] + a[1..];
  }

  lemma {:induction false} SortedUnique(a: seq<string>, b: seq<string>)
    requires Sorted(a) && Sorted(b) && multiset(a) == multiset(b)
    ensures a == b
    decreases |a|
  {
    assert |b| == |a| by { assert |multiset(a)| == |multiset(b)|; }
    if a != [] {
      assert a[0] == b[0] by {
        assert a[0] in multiset(b) && b[0] in multiset(a);
        HeadIsLeast(b, a[0]);
        HeadIsLeast(a, b[0]);
        LessEqAntisymmetric(a[0], b[0]);
      }
      assert a[1..] == b[1..] by {
        Tail(a);
        Tail(b);
        SortedUnique(a[1..], b[1..]);
      }
      assert a == [a[0]] + a[1..] && b == [b[0]] + b[1..];
    }
  }

  /** Sorting forgets the order of its input: two orderings of the same strings sort to the
      same sequence. */
  lemma SortIgnoresOrder(a: seq<string>, b: seq<string>)
    requires multiset(a) == multiset(b)
    ensures Sort(a) == Sort(b)
  {
    SortedUnique(Sort(a), Sort(b));
  }

  /** Example of `Sort`: two strings out of order are swapped. */
  lemma SortPair(x: string, y: string)
    requires !LessEq(x, y)
    ensures Sort([x, y]) == [y, x]
  {
    SortOneName(y);
    assert [x, y][1..] == [y];
    assert Insert(x, [y]) == [y] + Insert(x, []);
  }

  /** A single string is sorted. */
  lemma SortOneName(x: string)
    ensures Sort([x]) == [x]
  {
    assert [x][1..] == [];
  }
  /** The replacements made by a `strings.Replacer`: (pattern, replacement) pairs. */
  type Replacements = seq<(string, string)>

  predicate NonEmptyPatterns(pairs: Replacements) {
    forall k :: 0 <= k < |pairs| ==> pairs[k].0 != ""
  }

  /** The first listed pattern that is a prefix of `s`: at one position, the pattern given
      earlier to `strings.NewReplacer` wins. */
  function FirstMatch(s: string, pairs: Replacements): (r: Option<nat>)
    ensures r.Some? ==> r.value < |pairs| && HasPrefix(s, pairs[r.value].0)
    ensures r.Some? ==> forall k :: 0 <= k < r.value ==> !HasPrefix(s, pairs[k].0)
    ensures r.None? ==> forall k :: 0 <= k < |pairs| ==> !HasPrefix(s, pairs[k].0)
  {
    if pairs == [] then None
    else if HasPrefix(s, pairs[0].0) then Some(0)
    else match FirstMatch(s, pairs[1..])
      case None => None
      case Some(k) => Some(k + 1)
  }

  /** `strings.NewReplacer(pairs...).Replace(s)`: scanning left to right, each position where a
      pattern starts is replaced and skipped; replacement text is not scanned again. */
  function Replace(s: string, pairs: Replacements): string
    requires NonEmptyPatterns(pairs)
    decreases |s|
  {
    if s == [] then ""
    else match FirstMatch(s, pairs)
      case Some(k) => pairs[k].1 + Replace(s[|pairs[k].0|..], pairs)
      case None => [s[0]] + Replace(s[1..], pairs)
  }

  /** A string in which no pattern occurs is left as it is. */
  lemma {:induction false} ReplaceNoPattern(s: string, pairs: Replacements)
    requires NonEmptyPatterns(pairs)
    requires forall i, k :: 0 <= k < |pairs| ==> !OccursAt(s, pairs[k].0, i)
    ensures Replace(s, pairs) == s
    decreases |s|
  {
    if s != [] {
      forall k | 0 <= k < |pairs| ensures !HasPrefix(s, pairs[k].0) {
        assert !OccursAt(s, pairs[k].0, 0);
      }
      forall i, k | 0 <= k < |pairs| && 0 <= i && i + |pairs[k].0| <= |s| - 1
        ensures OccursAt(s[1..], pairs[k].0, i) == OccursAt(s, pairs[k].0, i + 1)
      {
        assert s[1..][i..i + |pairs[k].0|] == s[i + 1..i + 1 + |pairs[k].0|];
      }
      ReplaceNoPattern(s[1..], pairs);
      assert s == [s[0]] + s[1..];
    }
  }

  /** When every pattern starts with `open`, a string without `open` is left as it is. */
  lemma ReplaceWithoutOpening(s: string, pairs: Replacements, open: string)
    requires NonEmptyPatterns(pairs)
    requires forall k :: 0 <= k < |pairs| ==> HasPrefix(pairs[k].0, open)
    requires !Contains(s, open)
    ensures Replace(s, pairs) == s
  {
    ContainsIff(s, open);
    forall i, k | 0 <= k < |pairs| ensures !OccursAt(s, pairs[k].0, i) {
      NoPatternWithoutOpening(s, pairs[k].0, open, i);
    }
    ReplaceNoPattern(s, pairs);
  }

  lemma NoPatternWithoutOpening(s: string, p: string, open: string, i: int)
    requires HasPrefix(p, open) && !OccursAt(s, open, i)
    ensures !OccursAt(s, p, i)
  {
    if 0 <= i && i + |p| <= |s| {
      assert s[i..i + |open|] == s[i..i + |p|][..|open|];
    }
  }
}
