/** The handful of Python string operations the tool relies on, on `string`
    (a sequence of code points): `strip`, ASCII `upper`/`lower`, `split` on
    one separator character, `join`, `str(int)`, substring search, and the
    code-point order that `sorted` uses. */
module Text {

  // ---------------------------------------------------------------------
  // Whitespace and str.strip()

  /** The characters for which Python's `str.isspace()` holds. */
  predicate IsSpace(c: char) {
    || c == ' ' || c == '\t' || c == '\n' || c == '\r'
    || c == '\U{b}' || c == '\U{c}'
    || ('\U{1c}' <= c <= '\U{1f}')
    || c == '\U{85}' || c == '\U{a0}' || c == '\U{1680}'
    || ('\U{2000}' <= c <= '\U{200a}')
    || c == '\U{2028}' || c == '\U{2029}' || c == '\U{202f}'
    || c == '\U{205f}' || c == '\U{3000}'
  }

  /** `s.lstrip()`: drops the leading whitespace. */
  function StripLeft(s: string): (r: string)
    ensures |r| <= |s|
    ensures r == [] || !IsSpace(r[0])
    ensures forall i :: 0 <= i < |s| - |r| ==> IsSpace(s[i])
  {
    if |s| > 0 && IsSpace(s[0]) then StripLeft(s[1..]) else s
  }

  /** What `lstrip` keeps is a suffix of its input. */
  lemma {:induction false} StripLeftIsSuffix(s: string)
    ensures StripLeft(s) == s[|s| - |StripLeft(s)|..]
    decreases |s|
  {
    if |s| > 0 && IsSpace(s[0]) {
      StripLeftIsSuffix(s[1..]);
      assert s[1..][|s| - 1 - |StripLeft(s[1..])|..] == s[|s| - |StripLeft(s)|..];
    }
  }

  /** `s.rstrip()`: drops the trailing whitespace. */
  function StripRight(s: string): (r: string)
    ensures |r| <= |s| && r == s[..|r|]
    ensures r == [] || !IsSpace(r[|r| - 1])
    ensures forall i :: |r| <= i < |s| ==> IsSpace(s[i])
  {
    if |s| > 0 && IsSpace(s[|s| - 1]) then StripRight(s[..|s| - 1]) else s
  }

  /** `s.strip()`. */
  function Strip(s: string): string {
    StripRight(StripLeft(s))
  }

  /** What `strip` promises: the result is a slice of the input with no
      whitespace at either end, and everything cut off was whitespace. */
  lemma StripIsTrimmedSlice(s: string)
    ensures var r := Strip(s);
      && (exists i, j :: 0 <= i <= j <= |s| && r == s[i..j]
            && (forall k :: 0 <= k < i ==> IsSpace(s[k]))
            && (forall k :: j <= k < |s| ==> IsSpace(s[k])))
      && (r == [] || (!IsSpace(r[0]) && !IsSpace(r[|r| - 1])))
  {
    var l := StripLeft(s);
    StripLeftIsSuffix(s);
    var r := StripRight(l);
    var i := |s| - |l|;
    var j := i + |r|;
    assert r == s[i..j] by {
      assert r == l[..|r|] && l == s[i..];
    }
    forall k | j <= k < |s| ensures IsSpace(s[k]) {
      assert s[k] == l[k - i];
    }
    assert forall k :: 0 <= k < i ==> IsSpace(s[k]);
    assert r == [] || (!IsSpace(r[0]) && !IsSpace(r[|r| - 1])) by {
      if r != [] {
        assert r[0] == l[0];
      }
    }
  }

  // ---------------------------------------------------------------------
  // Case mapping (ASCII letters; MACs and PCI ids are ASCII hexadecimal)

  function UpperChar(c: char): char {
    if 'a' <= c <= 'z' then (c as int - 32) as char else c
  }

  function LowerChar(c: char): char {
    if 'A' <= c <= 'Z' then (c as int + 32) as char else c
  }

  /** `s.upper()` on ASCII letters. */
  function Upper(s: string): (r: string)
    ensures |r| == |s|
  {
    seq(|s|, i requires 0 <= i < |s| => UpperChar(s[i]))
  }

  /** `s.lower()` on ASCII letters. */
  function Lower(s: string): (r: string)
    ensures |r| == |s|
  {
    seq(|s|, i requires 0 <= i < |s| => LowerChar(s[i]))
  }

  // ---------------------------------------------------------------------
  // Prefix, suffix and substring tests

  /** `s.startswith(p)`, also `re.match('^p', s)` for a literal `p`. */
  predicate StartsWith(s: string, p: string) {
    |p| <= |s| && s[..|p|] == p
  }

  /** `s.endswith(p)`. */
  predicate EndsWith(s: string, p: string) {
    |p| <= |s| && s[|s| - |p|..] == p
  }

  /** `sub in s`, also `re.search('sub', s)` for a literal `sub`. */
  predicate Contains(s: string, sub: string)
    decreases |s|
  {
    StartsWith(s, sub) || (|s| > 0 && Contains(s[1..], sub))
  }

  /** A string with a character that never occurs in `s` is not a
      substring of `s`. */
  lemma {:induction false} NotContainsWithoutChar(s: string, sub: string, k: nat)
    requires k < |sub| && sub[k] !in s
    ensures !Contains(s, sub)
    decreases |s|
  {
    if |s| > 0 {
      assert forall c :: c in s[1..] ==> c in s;
      NotContainsWithoutChar(s[1..], sub, k);
    }
  }

  /** A string starting with `sub` contains it. */
  lemma StartsWithContains(s: string, sub: string)
    requires StartsWith(s, sub)
    ensures Contains(s, sub)
  {
  }

  /** Containment seen through a prefix: a substring of `b` is a substring of `a + b`. */
  lemma {:induction false} ContainsInSuffix(a: string, b: string, sub: string)
    requires Contains(b, sub)
    ensures Contains(a + b, sub)
    decreases |a|
  {
    if |a| > 0 {
      assert (a + b)[1..] == a[1..] + b;
      ContainsInSuffix(a[1..], b, sub);
    } else {
      assert a + b == b;
    }
  }

  // ---------------------------------------------------------------------
  // str.split(sep) with a one-character separator, and sep.join(parts)

  /** The first position of `c` in `s`. */
  function IndexOf(s: string, c: char): (i: nat)
    requires c in s
    ensures i < |s| && s[i] == c && c !in s[..i]
  {
    if s[0] == c then 0 else 1 + IndexOf(s[1..], c)
  }

  /** `s.split(sep)`: always at least one piece (`''.split(',') == ['']`). */
  function Split(s: string, sep: char): (r: seq<string>)
    ensures |r| >= 1
    ensures forall i :: 0 <= i < |r| ==> sep !in r[i]
    decreases |s|
  {
    if sep !in s then [s]
    else
      var i := IndexOf(s, sep);
      [s[..i]] + Split(s[i + 1..], sep)
  }

  /** `sep.join(parts)`. */
  function Join(sep: string, parts: seq<string>): string
  {
    if |parts| == 0 then ""
    else if |parts| == 1 then parts[0]
    else parts[0] + sep + Join(sep, parts[1..])
  }

  /** Joining the pieces of a split with the separator gives the string back. */
  lemma {:induction false} JoinSplit(s: string, sep: char)
    ensures Join([sep], Split(s, sep)) == s
    decreases |s|
  {
    if sep in s {
      var i := IndexOf(s, sep);
      var rest := Split(s[i + 1..], sep);
      JoinSplit(s[i + 1..], sep);
      var parts := [s[..i]] + rest;
      assert Split(s, sep) == parts;
      assert |parts| > 1 && parts[0] == s[..i] && parts[1..] == rest;
      calc {
        Join([sep], parts);
        parts[0] + [sep] + Join([sep], parts[1..]);
        s[..i] + [sep] + s[i + 1..];
        { assert s == s[..i] + [sep] + s[i + 1..]; }
        s;
      }
    }
  }

  /** Splitting a join of separator-free pieces gives the pieces back. */
  lemma {:induction false} SplitJoin(parts: seq<string>, sep: char)
    requires |parts| >= 1
    requires forall i :: 0 <= i < |parts| ==> sep !in parts[i]
    ensures Split(Join([sep], parts), sep) == parts
  {
    if |parts| > 1 {
      var tail := Join([sep], parts[1..]);
      assert Join([sep], parts) == parts[0] + [sep] + tail;
      assert forall k :: 0 <= k < |parts[1..]| ==> parts[1..][k] == parts[k + 1];
      SplitJoin(parts[1..], sep);
      SplitAtFirst(parts[0], tail, sep);
      assert parts == [parts[0]] + parts[1..];
    }
  }

  /** Splitting at a first separator: the part before it is the first piece. */
  lemma SplitAtFirst(a: string, b: string, sep: char)
    requires sep !in a
    ensures Split(a + [sep] + b, sep) == [a] + Split(b, sep)
  {
    var s := a + [sep] + b;
    IndexOfPrefix(a, [sep] + b, sep);
    assert s == a + ([sep] + b);
    assert s[..|a|] == a;
    assert s[|a| + 1..] == b;
  }

  /** Where the first occurrence lies when the left part has none. */
  lemma {:induction false} IndexOfPrefix(a: string, b: string, c: char)
    requires c !in a && |b| > 0 && b[0] == c
    ensures c in a + b && IndexOf(a + b, c) == |a|
    decreases |a|
  {
    assert (a + b)[|a|] == c;
    if |a| > 0 {
      assert (a + b)[1..] == a[1..] + b;
      IndexOfPrefix(a[1..], b, c);
    }
  }

  /** The last piece of `s.split(sep)`: `s.split(sep)[-1]`. */
  function LastPiece(s: string, sep: char): string {
    var parts := Split(s, sep);
    parts[|parts| - 1]
  }

  /** Position just after the last `sep` in `s`, 0 when it has none. */
  function AfterLastSep(s: string, sep: char): (k: nat)
    ensures k <= |s|
    ensures forall i :: k <= i < |s| ==> s[i] != sep
    ensures 0 < k ==> s[k - 1] == sep
    decreases |s|
  {
    if |s| == 0 then 0
    else if s[|s| - 1] == sep then |s|
    else AfterLastSep(s[..|s| - 1], sep)
  }

  /** `s.rsplit(sep, maxsplit=1)[-1]`: the text after the last separator,
      or all of `s` when it has none. */
  function AfterLast(s: string, sep: char): (r: string)
    ensures IsFinalField(s, sep, r)
  {
    var k := AfterLastSep(s, sep);
    assert forall j :: 0 <= j < |s[k..]| ==> s[k..][j] == s[k + j];
    s[k..]
  }

  /** `split(sep)[-1]` and `rsplit(sep, maxsplit=1)[-1]` agree: both are
      the longest separator-free suffix. */
  lemma LastPieceIsAfterLast(s: string, sep: char)
    ensures LastPiece(s, sep) == AfterLast(s, sep)
  {
    LastPieceIsFinalField(s, sep);
    FinalFieldUnique(s, sep, LastPiece(s, sep), AfterLast(s, sep));
  }

  /** `r` is the text after the last separator of `s`. */
  predicate IsFinalField(s: string, sep: char, r: string) {
    |r| <= |s| && r == s[|s| - |r|..] && sep !in r
    && (|r| < |s| ==> s[|s| - |r| - 1] == sep)
  }

  lemma {:induction false} LastPieceIsFinalField(s: string, sep: char)
    ensures IsFinalField(s, sep, LastPiece(s, sep))
    decreases |s|
  {
    if sep in s {
      var i := IndexOf(s, sep);
      var t := s[i + 1..];
      var tparts := Split(t, sep);
      assert Split(s, sep) == [s[..i]] + tparts;
      assert LastPiece(s, sep) == LastPiece(t, sep);
      LastPieceIsFinalField(t, sep);
    }
  }

  lemma FinalFieldUnique(s: string, sep: char, r1: string, r2: string)
    requires IsFinalField(s, sep, r1) && IsFinalField(s, sep, r2)
    ensures r1 == r2
  {
  }



  // ---------------------------------------------------------------------
  // str(int)

  predicate IsDigit(c: char) {
    '0' <= c <= '9'
  }

  function DigitChar(d: nat): (c: char)
    requires d < 10
    ensures IsDigit(c)
  {
    ('0' as int + d) as char
  }

  /** `str(n)` for a natural number: decimal, no leading zeros. */
  function NatToStr(n: nat): (r: string)
    ensures |r| >= 1
    ensures forall i :: 0 <= i < |r| ==> IsDigit(r[i])
    ensures n >= 10 ==> |r| >= 2
  {
    if n < 10 then [DigitChar(n)] else NatToStr(n / 10) + [DigitChar(n % 10)]
  }

  /** Different numbers print differently, so counters produce distinct names. */
  lemma {:induction false} NatToStrInjective(a: nat, b: nat)
    requires NatToStr(a) == NatToStr(b)
    ensures a == b
  {
    if a >= 10 && b >= 10 {
      var sa, sb := NatToStr(a), NatToStr(b);
      assert sa[|sa| - 1] == sb[|sb| - 1];
      assert NatToStr(a / 10) == sa[..|sa| - 1] == sb[..|sb| - 1] == NatToStr(b / 10);
      NatToStrInjective(a / 10, b / 10);
    }
  }

  /** `str(i)` for any integer. */
  function IntToStr(i: int): string {
    if i < 0 then "-" + NatToStr(-i) else NatToStr(i)
  }

  /** Two names made of a fixed prefix and a number are equal only when the
      numbers are. */
  lemma NumberedNamesInjective(p: string, a: nat, b: nat)
    requires p + NatToStr(a) == p + NatToStr(b)
    ensures a == b
  {
    assert NatToStr(a) == (p + NatToStr(a))[|p|..];
    NatToStrInjective(a, b);
  }

  // ---------------------------------------------------------------------
  // Code-point order of Python strings, and sorting

  /** `a <= b` on Python strings: lexicographic by code point, a proper
      prefix sorting first. */
  predicate LexLe(a: string, b: string)
    decreases |a|
  {
    |a| == 0 || (|b| > 0 && (a[0] < b[0] || (a[0] == b[0] && LexLe(a[1..], b[1..]))))
  }

  lemma {:induction false} LexLeRefl(a: string)
    ensures LexLe(a, a)
    decreases |a|
  {
    if |a| > 0 {
      LexLeRefl(a[1..]);
    }
  }

  lemma {:induction false} LexLeTotal(a: string, b: string)
    ensures LexLe(a, b) || LexLe(b, a)
    decreases |a|
  {
    if |a| > 0 && |b| > 0 && a[0] == b[0] {
      LexLeTotal(a[1..], b[1..]);
    }
  }

  lemma {:induction false} LexLeTrans(a: string, b: string, c: string)
    requires LexLe(a, b) && LexLe(b, c)
    ensures LexLe(a, c)
    decreases |a|
  {
    if |a| > 0 && a[0] == b[0] && b[0] == c[0] {
      LexLeTrans(a[1..], b[1..], c[1..]);
    }
  }

  lemma {:induction false} LexLeAntisym(a: string, b: string)
    requires LexLe(a, b) && LexLe(b, a)
    ensures a == b
    decreases |a|
  {
    if |a| > 0 {
      LexLeAntisym(a[1..], b[1..]);
      assert a == [a[0]] + a[1..] && b == [b[0]] + b[1..];
    }
  }

  /** Sorted in Python's string order. */
  predicate Sorted(s: seq<string>) {
    forall i, j :: 0 <= i < j < |s| ==> LexLe(s[i], s[j])
  }

  /** Sorted with no repeats, as `sorted(set(...))` produces. */
  predicate StrictlySorted(s: seq<string>) {
    Sorted(s) && forall i, j :: 0 <= i < j < |s| ==> s[i] != s[j]
  }

  /** Sorted by the string key `key`, as `sorted(xs, key=key)` arranges. */
  predicate SortedBy<T>(s: seq<T>, key: T -> string) {
    forall i, j :: 0 <= i < j < |s| ==> LexLe(key(s[i]), key(s[j]))
  }

  /** Inserts `x` into a list sorted by `key`, after every element whose key
      is not greater than its own. */
  function InsertBy<T>(x: T, s: seq<T>, key: T -> string): seq<T>
    decreases |s|
  {
    if |s| == 0 then [x]
    else if LexLe(key(s[0]), key(x)) then [s[0]] + InsertBy(x, s[1..], key)
    else [x] + s
  }

  /** Inserting into a sorted list keeps it sorted and adds `x` alone. */
  lemma {:induction false} InsertBySorted<T>(x: T, s: seq<T>, key: T -> string)
    requires SortedBy(s, key)
    ensures SortedBy(InsertBy(x, s, key), key)
    ensures multiset(InsertBy(x, s, key)) == multiset(s) + multiset{x}
    decreases |s|
  {
    if |s| > 0 {
      if LexLe(key(s[0]), key(x)) {
        InsertBySorted(x, s[1..], key);
        InsertByHeadFacts(x, s, key);
      } else {
        LexLeTotal(key(s[0]), key(x));
        InsertByFrontFacts(x, s, key);
      }
    }
  }

  lemma InsertByHeadFacts<T>(x: T, s: seq<T>, key: T -> string)
    requires SortedBy(s, key) && |s| > 0 && LexLe(key(s[0]), key(x))
    requires SortedBy(InsertBy(x, s[1..], key), key)
    requires multiset(InsertBy(x, s[1..], key)) == multiset(s[1..]) + multiset{x}
    ensures SortedBy([s[0]] + InsertBy(x, s[1..], key), key)
    ensures multiset([s[0]] + InsertBy(x, s[1..], key)) == multiset(s) + multiset{x}
  {
    var t := InsertBy(x, s[1..], key);
    var r := [s[0]] + t;
    forall j | 0 < j < |r| ensures LexLe(key(r[0]), key(r[j])) {
      assert r[j] in multiset(t);
      assert r[j] in multiset(s[1..]) || r[j] == x;
    }
    assert s == [s[0]] + s[1..];
  }

  lemma InsertByFrontFacts<T>(x: T, s: seq<T>, key: T -> string)
    requires SortedBy(s, key) && |s| > 0 && LexLe(key(x), key(s[0]))
    ensures SortedBy([x] + s, key)
  {
    forall j | 0 < j < |s| ensures LexLe(key(x), key(s[j])) {
      LexLeTrans(key(x), key(s[0]), key(s[j]));
    }
  }

  /** `sorted(s, key=key)`: insertion sort, stable. */
  function SortBy<T>(s: seq<T>, key: T -> string): (r: seq<T>)
    ensures SortedBy(r, key) && multiset(r) == multiset(s)
  {
    if |s| == 0 then []
    else
      assert s == s[..|s| - 1] + [s[|s| - 1]];
      InsertBySorted(s[|s| - 1], SortBy(s[..|s| - 1], key), key);
      InsertBy(s[|s| - 1], SortBy(s[..|s| - 1], key), key)
  }

  /** `[f(x) for x in s]`. */
  function MapSeq<A, B>(s: seq<A>, f: A -> B): (r: seq<B>)
    ensures |r| == |s| && forall i :: 0 <= i < |s| ==> r[i] == f(s[i])
  {
    seq(|s|, i requires 0 <= i < |s| => f(s[i]))
  }

  /** Sorting commutes with a map that keeps the key: the order depends on
      the keys alone. */
  lemma {:induction false} SortByMap<A, B>(s: seq<A>, f: A -> B, keyA: A -> string, keyB: B -> string)
    requires forall x :: keyB(f(x)) == keyA(x)
    ensures MapSeq(SortBy(s, keyA), f) == SortBy(MapSeq(s, f), keyB)
    decreases |s|
  {
    if |s| > 0 {
      var init := s[..|s| - 1];
      SortByMap(init, f, keyA, keyB);
      assert MapSeq(s, f)[..|s| - 1] == MapSeq(init, f);
      InsertByMap(s[|s| - 1], SortBy(init, keyA), f, keyA, keyB);
    }
  }

  /** Inserting `x` into a sorted sequence keeps the elements whose key is
      not greater than its own in front of it. */
  function InsertPos<T>(x: T, t: seq<T>, key: T -> string): (p: nat)
    ensures p <= |t|
    decreases |t|
  {
    if |t| > 0 && LexLe(key(t[0]), key(x)) then 1 + InsertPos(x, t[1..], key) else 0
  }

  /** `InsertBy` puts `x` at `InsertPos` and moves nothing else. */
  lemma {:induction false} InsertByAt<T>(x: T, t: seq<T>, key: T -> string)
    ensures InsertBy(x, t, key) == t[..InsertPos(x, t, key)] + [x] + t[InsertPos(x, t, key)..]
    decreases |t|
  {
    if |t| > 0 && LexLe(key(t[0]), key(x)) {
      InsertByAt(x, t[1..], key);
      assert InsertBy(x, t, key) == [t[0]] + InsertBy(x, t[1..], key);
      ConsSplice(t[0], t[1..], x, InsertPos(x, t[1..], key));
      assert [t[0]] + t[1..] == t;
    }
  }

  lemma ConsSplice<T>(h: T, u: seq<T>, x: T, p: nat)
    requires p <= |u|
    ensures [h] + (u[..p] + [x] + u[p..]) == ([h] + u)[..p + 1] + [x] + ([h] + u)[p + 1..]
  {
    assert ([h] + u)[..p + 1] == [h] + u[..p];
    assert ([h] + u)[p + 1..] == u[p..];
  }

  /** The place of insertion depends on the keys alone. */
  lemma {:induction false} InsertPosMap<A, B>(x: A, t: seq<A>, f: A -> B, keyA: A -> string, keyB: B -> string)
    requires forall y :: keyB(f(y)) == keyA(y)
    ensures InsertPos(f(x), MapSeq(t, f), keyB) == InsertPos(x, t, keyA)
    decreases |t|
  {
    if |t| > 0 {
      assert MapSeq(t, f)[1..] == MapSeq(t[1..], f);
      InsertPosMap(x, t[1..], f, keyA, keyB);
    }
  }

  lemma InsertByMap<A, B>(x: A, t: seq<A>, f: A -> B, keyA: A -> string, keyB: B -> string)
    requires forall y :: keyB(f(y)) == keyA(y)
    requires SortedBy(t, keyA)
    ensures SortedBy(MapSeq(t, f), keyB)
    ensures MapSeq(InsertBy(x, t, keyA), f) == InsertBy(f(x), MapSeq(t, f), keyB)
  {
    var mt := MapSeq(t, f);
    assert forall i, j :: 0 <= i < j < |mt| ==> LexLe(keyB(mt[i]), keyB(mt[j])) by {
      forall i, j | 0 <= i < j < |mt| ensures LexLe(keyB(mt[i]), keyB(mt[j])) {
        assert keyB(mt[i]) == keyA(t[i]) && keyB(mt[j]) == keyA(t[j]);
      }
    }
    InsertByAt(x, t, keyA);
    InsertByAt(f(x), mt, keyB);
    InsertPosMap(x, t, f, keyA, keyB);
    var p := InsertPos(x, t, keyA);
    MapSplice(t, x, p, f);
  }

  /** Mapping a sequence with one element spliced in. */
  lemma MapSplice<A, B>(t: seq<A>, x: A, p: nat, f: A -> B)
    requires p <= |t|
    ensures MapSeq(t[..p] + [x] + t[p..], f) == MapSeq(t, f)[..p] + [f(x)] + MapSeq(t, f)[p..]
  {
    var l, r := MapSeq(t[..p] + [x] + t[p..], f), MapSeq(t, f)[..p] + [f(x)] + MapSeq(t, f)[p..];
    forall i | 0 <= i < |l| ensures l[i] == r[i] {
      if i > p {
        assert (t[..p] + [x] + t[p..])[i] == t[i - 1];
      }
    }
  }

  /** The elements of `s` whose key is `k`, in their order in `s`. */
  function WithKey<T>(s: seq<T>, key: T -> string, k: string): seq<T>
    decreases |s|
  {
    if |s| == 0 then []
    else WithKey(s[..|s| - 1], key, k) + (if key(s[|s| - 1]) == k then [s[|s| - 1]] else [])
  }

  /** `sorted` is stable: elements with equal keys keep the order they had. */
  lemma {:induction false} SortByStable<T>(s: seq<T>, key: T -> string, k: string)
    ensures WithKey(SortBy(s, key), key, k) == WithKey(s, key, k)
    decreases |s|
  {
    if |s| > 0 {
      var init := s[..|s| - 1];
      SortByStable(init, key, k);
      InsertByStable(s[|s| - 1], SortBy(init, key), key, k);
    }
  }

  /** Inserting after every element of key not greater than its own puts
      an element behind all those of its key. */
  lemma {:induction false} InsertByStable<T>(x: T, t: seq<T>, key: T -> string, k: string)
    requires SortedBy(t, key)
    ensures WithKey(InsertBy(x, t, key), key, k) == WithKey(t, key, k) + (if key(x) == k then [x] else [])
    decreases |t|
  {
    if |t| > 0 {
      if LexLe(key(t[0]), key(x)) {
        assert SortedBy(t[1..], key);
        InsertByStable(x, t[1..], key, k);
        InsertByStableHead(x, t, key, k);
      } else {
        assert InsertBy(x, t, key) == [x] + t;
        InsertByFrontStable(x, t, key, k);
      }
    }
  }

  /** The step of `InsertByStable` where `x` goes after the head. */
  lemma InsertByStableHead<T>(x: T, t: seq<T>, key: T -> string, k: string)
    requires |t| > 0 && LexLe(key(t[0]), key(x))
    requires WithKey(InsertBy(x, t[1..], key), key, k) == WithKey(t[1..], key, k) + (if key(x) == k then [x] else [])
    ensures WithKey(InsertBy(x, t, key), key, k) == WithKey(t, key, k) + (if key(x) == k then [x] else [])
  {
    assert InsertBy(x, t, key) == [t[0]] + InsertBy(x, t[1..], key);
    WithKeyCons(t[0], InsertBy(x, t[1..], key), t[1..], key, k, if key(x) == k then [x] else []);
    assert t == [t[0]] + t[1..];
  }

  /** The same head in front of two sequences keeps what their elements of
      key `k` have in common. */
  lemma WithKeyCons<T>(h: T, s: seq<T>, t: seq<T>, key: T -> string, k: string, extra: seq<T>)
    requires WithKey(s, key, k) == WithKey(t, key, k) + extra
    ensures WithKey([h] + s, key, k) == WithKey([h] + t, key, k) + extra
  {
    WithKeyConcat([h], s, key, k);
    WithKeyConcat([h], t, key, k);
  }

  /** An element inserted at the front precedes only greater keys. */
  lemma InsertByFrontStable<T>(x: T, t: seq<T>, key: T -> string, k: string)
    requires SortedBy(t, key) && |t| > 0 && !LexLe(key(t[0]), key(x))
    ensures WithKey([x] + t, key, k) == WithKey(t, key, k) + (if key(x) == k then [x] else [])
  {
    WithKeyConcat([x], t, key, k);
    assert WithKey([x], key, k) == (if key(x) == k then [x] else []) by {
      assert [x][..0] == [];
    }
    if key(x) == k {
      forall j | 0 <= j < |t| ensures key(t[j]) != k {
        if j == 0 {
          LexLeRefl(key(t[0]));
        }
        assert LexLe(key(t[0]), key(t[j]));
      }
      WithKeyNone(t, key, k);
    }
  }

  lemma {:induction false} WithKeyConcat<T>(a: seq<T>, b: seq<T>, key: T -> string, k: string)
    ensures WithKey(a + b, key, k) == WithKey(a, key, k) + WithKey(b, key, k)
    decreases |b|
  {
    if |b| == 0 {
      assert a + b == a;
    } else {
      var bi := b[..|b| - 1];
      WithKeyConcat(a, bi, key, k);
      assert (a + b)[..|a + b| - 1] == a + bi;
    }
  }

  lemma {:induction false} WithKeyNone<T>(s: seq<T>, key: T -> string, k: string)
    requires forall j :: 0 <= j < |s| ==> key(s[j]) != k
    ensures WithKey(s, key, k) == []
    decreases |s|
  {
    if |s| > 0 {
      WithKeyNone(s[..|s| - 1], key, k);
    }
  }

  /** `sorted(s)` for a list of strings. */
  function SortStrings(s: seq<string>): (r: seq<string>)
    ensures Sorted(r) && multiset(r) == multiset(s)
  {
    var id := (x: string) => x;
    var r := SortBy(s, id);
    assert forall i :: 0 <= i < |r| ==> id(r[i]) == r[i];
    r
  }

  /** A sorted list is determined by its elements: any two sorted
      arrangements of the same multiset are the same list. */
  lemma {:induction false} SortedUnique(a: seq<string>, b: seq<string>)
    requires Sorted(a) && Sorted(b) && multiset(a) == multiset(b)
    ensures a == b
    decreases |a|
  {
    assert |a| == |multiset(a)| == |multiset(b)| == |b|;
    if |a| > 0 {
      SortedHeadsEqual(a, b);
      TailMultisets(a, b);
      SortedUnique(a[1..], b[1..]);
      assert a == [a[0]] + a[1..] && b == [b[0]] + b[1..];
    }
  }

  /** A common prefix does not change the order of two strings. */
  lemma {:induction false} LexLeCommonPrefix(p: string, x: string, y: string)
    requires LexLe(x, y)
    ensures LexLe(p + x, p + y)
    decreases |p|
  {
    if |p| == 0 {
      assert p + x == x && p + y == y;
    } else {
      LexLeCommonPrefix(p[1..], x, y);
      assert (p + x)[0] == (p + y)[0];
      assert (p + x)[1..] == p[1..] + x && (p + y)[1..] == p[1..] + y;
    }
  }

  /** A list whose neighbours are in order, each strictly before the next,
      is sorted and has no two equal keys. */
  lemma {:induction false} SortedByOfNeighbours<T>(s: seq<T>, key: T -> string)
    requires forall k :: 0 <= k < |s| - 1 ==> LexLe(key(s[k]), key(s[k + 1])) && key(s[k]) != key(s[k + 1])
    ensures SortedBy(s, key)
    ensures forall i, j :: 0 <= i < j < |s| ==> key(s[i]) != key(s[j])
    decreases |s|
  {
    if |s| > 1 {
      SortedByOfNeighbours(s[1..], key);
      forall j | 1 <= j < |s|
        ensures LexLe(key(s[0]), key(s[j])) && key(s[0]) != key(s[j])
      {
        if j == 1 {
        } else {
          assert LexLe(key(s[1]), key(s[j])) by { assert s[1] == s[1..][0] && s[j] == s[1..][j - 1]; }
          LexLeTrans(key(s[0]), key(s[1]), key(s[j]));
          if key(s[0]) == key(s[j]) {
            LexLeAntisym(key(s[0]), key(s[1]));
          }
        }
      }
      forall i, j | 0 <= i < j < |s|
        ensures LexLe(key(s[i]), key(s[j])) && key(s[i]) != key(s[j])
      {
        if i > 0 {
          assert s[i] == s[1..][i - 1] && s[j] == s[1..][j - 1];
        }
      }
    }
  }

  /** A list sorted by keys that are all different is determined by its
      elements: any two such arrangements are the same list. */
  lemma {:induction false} SortedByUnique<T>(a: seq<T>, b: seq<T>, key: T -> string)
    requires SortedBy(a, key) && SortedBy(b, key) && multiset(a) == multiset(b)
    requires forall i, j :: 0 <= i < j < |a| ==> key(a[i]) != key(a[j])
    ensures a == b
    decreases |a|
  {
    assert |a| == |multiset(a)| == |multiset(b)| == |b|;
    if |a| > 0 {
      assert a[0] in multiset(b) && b[0] in multiset(a);
      var i :| 0 <= i < |b| && b[i] == a[0];
      var j :| 0 <= j < |a| && a[j] == b[0];
      assert LexLe(key(b[0]), key(a[0])) by {
        if i == 0 { LexLeRefl(key(a[0])); }
      }
      assert LexLe(key(a[0]), key(b[0])) by {
        if j == 0 { LexLeRefl(key(b[0])); }
      }
      LexLeAntisym(key(a[0]), key(b[0]));
      assert j == 0;
      TailMultisets(a, b);
      SortedByUnique(a[1..], b[1..], key);
      assert a == [a[0]] + a[1..] && b == [b[0]] + b[1..];
    }
  }

  /** When the keys are all different, `sorted` gives the one arrangement
      of the elements that is in order. */
  lemma SortByIsTheSorted<T>(s: seq<T>, r: seq<T>, key: T -> string)
    requires SortedBy(r, key) && multiset(r) == multiset(s)
    requires forall i, j :: 0 <= i < j < |r| ==> key(r[i]) != key(r[j])
    ensures SortBy(s, key) == r
  {
    SortedByUnique(r, SortBy(s, key), key);
  }

  /** Both sorted arrangements start with the least element. */
  lemma SortedHeadsEqual(a: seq<string>, b: seq<string>)
    requires Sorted(a) && Sorted(b) && multiset(a) == multiset(b)
    requires |a| > 0 && |b| > 0
    ensures a[0] == b[0]
  {
    assert a[0] in multiset(b);
    assert b[0] in multiset(a);
    var i :| 0 <= i < |b| && b[i] == a[0];
    var j :| 0 <= j < |a| && a[j] == b[0];
    assert LexLe(b[0], a[0]) by {
      if i == 0 { LexLeRefl(a[0]); }
    }
    assert LexLe(a[0], b[0]) by {
      if j == 0 { LexLeRefl(b[0]); }
    }
    LexLeAntisym(a[0], b[0]);
  }

  lemma TailMultisets<T>(a: seq<T>, b: seq<T>)
    requires multiset(a) == multiset(b) && |a| > 0 && |b| > 0 && a[0] == b[0]
    ensures multiset(a[1..]) == multiset(b[1..])
  {
    assert a == [a[0]] + a[1..] && b == [b[0]] + b[1..];
    assert multiset(a) == multiset{a[0]} + multiset(a[1..]);
    assert multiset(b) == multiset{b[0]} + multiset(b[1..]);
    assert multiset(a[1..]) == multiset(a) - multiset{a[0]};
  }

  /** The smallest element of a finite non-empty set of strings exists. */
  lemma {:induction false} MinimumExists(s: set<string>)
    requires s != {}
    ensures exists m :: m in s && forall x :: x in s ==> LexLe(m, x)
    decreases |s|
  {
    var y :| y in s;
    if s == {y} {
      LexLeRefl(y);
    } else {
      MinimumExists(s - {y});
      var m :| m in s - {y} && forall x :: x in s - {y} ==> LexLe(m, x);
      if LexLe(m, y) {
        assert forall x :: x in s ==> LexLe(m, x);
      } else {
        LexLeTotal(m, y);
        LexLeRefl(y);
        forall x | x in s ensures LexLe(y, x) {
          if x != y { LexLeTrans(y, m, x); }
        }
      }
    }
  }

  /** The smallest string of a non-empty set. */
  function Minimum(s: set<string>): (m: string)
    requires s != {}
    ensures m in s && forall x :: x in s ==> LexLe(m, x)
  {
    MinimumExists(s);
    LexLeAntisymAll();
    var m :| m in s && forall x :: x in s ==> LexLe(m, x);
    m
  }

  /** `sorted(unique)` for a set of strings: the elements in increasing order,
      each once. */
  function SortedSet(s: set<string>): (r: seq<string>)
    ensures StrictlySorted(r) && |r| == |s|
    ensures forall x :: x in r <==> x in s
    decreases |s|
  {
    if s == {} then []
    else
      var m := Minimum(s);
      var rest := SortedSet(s - {m});
      assert |s - {m}| == |s| - 1;
      assert forall j :: 0 <= j < |rest| ==> rest[j] in s - {m};
      [m] + rest
  }

  lemma LexLeAntisymAll()
    ensures forall a, b :: LexLe(a, b) && LexLe(b, a) ==> a == b
  {
    forall a, b | LexLe(a, b) && LexLe(b, a) ensures a == b {
      LexLeAntisym(a, b);
    }
  }

  /** In a list without repeats every element occurs once. */
  lemma {:induction false} DistinctCount<T>(a: seq<T>, x: T)
    requires forall i, j :: 0 <= i < j < |a| ==> a[i] != a[j]
    ensures multiset(a)[x] == if x in a then 1 else 0
    decreases |a|
  {
    if |a| > 0 {
      assert a == [a[0]] + a[1..];
      assert multiset(a) == multiset{a[0]} + multiset(a[1..]);
      DistinctCount(a[1..], x);
      if x == a[0] {
        assert x !in a[1..];
      }
    }
  }

  // ---------------------------------------------------------------------
  // Reading a text file line by line

  /** What a file opened in text mode reads: universal newlines turn each
      `\r\n` and each lone `\r` into `\n`. */
  function ReadText(s: string): (r: string)
    ensures '\r' !in r
    decreases |s|
  {
    if |s| == 0 then ""
    else if s[0] == '\r' then
      "\n" + ReadText(if |s| > 1 && s[1] == '\n' then s[2..] else s[1..])
    else
      [s[0]] + ReadText(s[1..])
  }

  /** A text with no carriage return is read as it is. */
  lemma {:induction false} ReadTextWithoutCarriageReturn(s: string)
    requires '\r' !in s
    ensures ReadText(s) == s
    decreases |s|
  {
    if |s| > 0 {
      assert s[0] != '\r';
      ReadTextWithoutCarriageReturn(s[1..]);
      assert s == [s[0]] + s[1..];
    }
  }

  /** A Windows line end reads as `\n`. */
  lemma {:induction false} ReadTextCrLf(a: string, b: string)
    requires '\r' !in a
    ensures ReadText(a + "\r\n" + b) == a + "\n" + ReadText(b)
    decreases |a|
  {
    var s := a + "\r\n" + b;
    if |a| > 0 {
      assert s[0] == a[0] && s[1..] == a[1..] + "\r\n" + b;
      ReadTextCrLf(a[1..], b);
      assert a == [a[0]] + a[1..];
    } else {
      assert s[2..] == b;
    }
  }

  /** A lone carriage return, the line end of classic Mac OS, reads as `\n`. */
  lemma {:induction false} ReadTextCr(a: string, b: string)
    requires '\r' !in a && (|b| == 0 || b[0] != '\n')
    ensures ReadText(a + "\r" + b) == a + "\n" + ReadText(b)
    decreases |a|
  {
    var s := a + "\r" + b;
    if |a| > 0 {
      assert s[0] == a[0] && s[1..] == a[1..] + "\r" + b;
      ReadTextCr(a[1..], b);
      assert a == [a[0]] + a[1..];
    } else {
      assert s[1..] == b;
    }
  }

  /** The lines `for line in f` yields: each piece up to and including a
      `\n`, and a final piece without one when the text does not end in a
      newline. */
  function ReadLines(s: string): (r: seq<string>)
    ensures forall i :: 0 <= i < |r| ==> |r[i]| > 0
    decreases |s|
  {
    if |s| == 0 then []
    else if '\n' !in s then [s]
    else
      var i := IndexOf(s, '\n');
      [s[..i + 1]] + ReadLines(s[i + 1..])
  }

  /** `''.join(lines)`, which is what `writelines` puts in the file. */
  function Concat(lines: seq<string>): string {
    if |lines| == 0 then "" else lines[0] + Concat(lines[1..])
  }

  /** Reading the lines of a text and writing them back gives the text. */
  lemma {:induction false} ConcatReadLines(s: string)
    ensures Concat(ReadLines(s)) == s
    decreases |s|
  {
    if |s| > 0 && '\n' in s {
      var i := IndexOf(s, '\n');
      var rest := ReadLines(s[i + 1..]);
      ConcatReadLines(s[i + 1..]);
      assert ReadLines(s) == [s[..i + 1]] + rest;
      assert ([s[..i + 1]] + rest)[1..] == rest;
      assert s == s[..i + 1] + s[i + 1..];
    }
  }

  /** Rearranging a list without repeats gives a list without repeats. */
  lemma PermutationKeepsDistinct<T>(a: seq<T>, b: seq<T>)
    requires multiset(a) == multiset(b)
    requires forall i, j :: 0 <= i < j < |a| ==> a[i] != a[j]
    ensures forall i, j :: 0 <= i < j < |b| ==> b[i] != b[j]
  {
    forall i, j | 0 <= i < j < |b| ensures b[i] != b[j] {
      if b[i] == b[j] {
        assert b == b[..j] + b[j..];
        assert b[i] in b[..j] && b[j] in b[j..];
        assert multiset(b)[b[i]] == multiset(b[..j])[b[i]] + multiset(b[j..])[b[i]];
        DistinctCount(a, b[i]);
      }
    }
  }
}
