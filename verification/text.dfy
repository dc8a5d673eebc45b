/** The few Python `str` operations the generator relies on: `strip()`,
    `lower()`, `split(sep)`, the substring test `t in s`, and the
    ordering of strings used by `sorted`. */
module Text {

  /** Python's `str.isspace`, restricted to ASCII code points. */
  predicate IsSpace(c: char) {
    c == ' ' || ('\t' <= c <= '\r') || ('\U{1C}' <= c <= '\U{1F}')
  }

  /** `s.lstrip()`: drops the longest all-whitespace prefix. */
  function StripLeft(s: string): string {
    if |s| > 0 && IsSpace(s[0]) then StripLeft(s[1..]) else s
  }

  /** What `lstrip()` keeps is a suffix, and what it drops is whitespace. */
  lemma {:induction false} StripLeftSuffix(s: string)
    ensures |StripLeft(s)| <= |s| && StripLeft(s) == s[|s| - |StripLeft(s)|..]
    ensures StripLeft(s) == [] || !IsSpace(StripLeft(s)[0])
    ensures forall k :: 0 <= k < |s| - |StripLeft(s)| ==> IsSpace(s[k])
  {
    if |s| > 0 && IsSpace(s[0]) {
      StripLeftSuffix(s[1..]);
    }
  }

  /** `s.rstrip()`: drops the longest all-whitespace suffix. */
  function StripRight(s: string): string {
    if |s| > 0 && IsSpace(s[|s| - 1]) then StripRight(s[..|s| - 1]) else s
  }

  /** What `rstrip()` keeps is a prefix, and what it drops is whitespace. */
  lemma {:induction false} StripRightPrefix(s: string)
    ensures |StripRight(s)| <= |s| && StripRight(s) == s[..|StripRight(s)|]
    ensures StripRight(s) == [] || !IsSpace(StripRight(s)[|StripRight(s)| - 1])
    ensures forall k :: |StripRight(s)| <= k < |s| ==> IsSpace(s[k])
  {
    if |s| > 0 && IsSpace(s[|s| - 1]) {
      StripRightPrefix(s[..|s| - 1]);
    }
  }

  /** `s.strip()`. */
  function Strip(s: string): string {
    StripRight(StripLeft(s))
  }

  /** `strip()` leaves no whitespace at either end and never lengthens. */
  lemma StripEnds(s: string)
    ensures Strip(s) == [] || (!IsSpace(Strip(s)[0]) && !IsSpace(Strip(s)[|Strip(s)| - 1]))
    ensures |Strip(s)| <= |s|
  {
    StripLeftSuffix(s);
    StripRightPrefix(StripLeft(s));
  }

  /** Stripping adds no character. */
  lemma StripKeeps(s: string, c: char)
    requires c !in s
    ensures c !in Strip(s)
  {
    StripLeftSuffix(s);
    StripRightPrefix(StripLeft(s));
    var l := StripLeft(s);
    assert c !in l;
  }

  /** A string that `strip()` leaves alone. */
  predicate Trimmed(s: string) {
    s == [] || (!IsSpace(s[0]) && !IsSpace(s[|s| - 1]))
  }

  lemma StripTrimmed(s: string)
    requires Trimmed(s)
    ensures Strip(s) == s
  {
  }

  lemma StripIdempotent(s: string)
    ensures Strip(Strip(s)) == Strip(s)
  {
    StripEnds(s);
    StripTrimmed(Strip(s));
  }

  /** `strip()` removes only whitespace: the result is a slice of `s`
      whose surroundings are all whitespace. */
  lemma StripIsTrimmedSlice(s: string)
    ensures exists lo :: (0 <= lo <= |s| - |Strip(s)| && SliceAt(s, Strip(s), lo)
                          && (forall k :: 0 <= k < lo ==> IsSpace(s[k]))
                          && (forall k :: lo + |Strip(s)| <= k < |s| ==> IsSpace(s[k])))
  {
    StripLeftSuffix(s);
    StripRightPrefix(StripLeft(s));
    var l := StripLeft(s);
    var lo := |s| - |l|;
    assert SliceAt(s, Strip(s), lo);
  }

  /** `t` occurs in `s` starting at index `i`. */
  predicate SliceAt(s: string, t: string, i: nat) {
    i + |t| <= |s| && s[i..i + |t|] == t
  }

  /** Python's substring test `t in s`. */
  predicate Contains(s: string, t: string) {
    t <= s || (|s| > 0 && Contains(s[1..], t))
  }

  /** The substring test holds exactly when `t` occurs at some index. */
  lemma {:induction false} ContainsIff(s: string, t: string)
    ensures Contains(s, t) <==> exists i :: 0 <= i <= |s| && SliceAt(s, t, i)
  {
    if t <= s {
      assert SliceAt(s, t, 0);
    } else if |s| > 0 {
      ContainsIff(s[1..], t);
      assert forall i :: 1 <= i <= |s| && SliceAt(s, t, i) ==> SliceAt(s[1..], t, i - 1);
      assert forall i :: 0 <= i <= |s| - 1 && SliceAt(s[1..], t, i) ==> SliceAt(s, t, i + 1);
    }
  }

  /** An occurrence at a known index makes the test succeed. */
  lemma ContainsAt(s: string, t: string, i: nat)
    requires SliceAt(s, t, i)
    ensures Contains(s, t)
  {
    ContainsIff(s, t);
  }

  /** `t` occurs in `a + b` when it begins `b`. */
  lemma ContainsPrefixOfSuffix(a: string, b: string, t: string)
    requires t <= b
    ensures Contains(a + b, t)
  {
    assert (a + b)[|a|..|a| + |t|] == t;
    ContainsAt(a + b, t, |a|);
  }

  /** An occurrence survives appending. */
  lemma ContainsExtend(s: string, u: string, t: string)
    requires Contains(s, t)
    ensures Contains(s + u, t)
  {
    ContainsIff(s, t);
    var i :| 0 <= i <= |s| && SliceAt(s, t, i);
    assert (s + u)[i..i + |t|] == s[i..i + |t|];
    ContainsAt(s + u, t, i);
  }

  /** `t` occurs in joined pieces when it begins the last piece. */
  lemma JoinContainsPrefixOfLast(parts: seq<string>, sep: char, t: string)
    requires |parts| >= 1 && t <= parts[|parts| - 1]
    ensures Contains(Join(parts, sep), t)
  {
    var front := parts[..|parts| - 1];
    var last := parts[|parts| - 1];
    assert parts == front + [last];
    JoinAppend(front, last, sep);
    var head := if front == [] then [] else Join(front, sep) + [sep];
    ContainsPrefixOfSuffix(head, last, t);
  }

  /** `c.lower()` for ASCII letters; every other character is kept. */
  function LowerChar(c: char): char {
    if 'A' <= c <= 'Z' then (c as int + ('a' as int - 'A' as int)) as char else c
  }

  /** `s.lower()`, character by character. */
  function Lower(s: string): (r: string)
    ensures |r| == |s|
    ensures forall k :: 0 <= k < |s| ==> r[k] == LowerChar(s[k])
  {
    if s == [] then [] else [LowerChar(s[0])] + Lower(s[1..])
  }

  /** Lower-casing does not change a lower-case string, and in
      particular is idempotent. */
  lemma LowerIdempotent(s: string)
    ensures Lower(Lower(s)) == Lower(s)
  {
  }

  /** Characters the script treats specially are not letters, so
      lower-casing neither adds nor removes them. */
  lemma LowerKeepsPunctuation(s: string, c: char)
    requires !('A' <= c <= 'Z') && !('a' <= c <= 'z')
    ensures c in Lower(s) <==> c in s
  {
    if c in s {
      var k :| 0 <= k < |s| && s[k] == c;
      assert Lower(s)[k] == c;
    }
    if c in Lower(s) {
      var k :| 0 <= k < |s| && Lower(s)[k] == c;
      assert s[k] == c;
    }
  }

  /** The inverse of `Split`: the pieces glued back with `sep`. */
  function Join(parts: seq<string>, sep: char): string {
    if |parts| == 0 then []
    else if |parts| == 1 then parts[0]
    else parts[0] + [sep] + Join(parts[1..], sep)
  }

  /** A character missing from the joined string is missing from every
      piece. */
  lemma {:induction false} JoinKeeps(parts: seq<string>, sep: char, k: nat, c: char)
    requires k < |parts| && c !in Join(parts, sep)
    ensures c !in parts[k]
  {
    if k > 0 {
      JoinKeeps(parts[1..], sep, k - 1, c);
    }
  }

  /** Gluing one more piece onto a non-empty list of pieces. */
  lemma {:induction false} JoinAppend(parts: seq<string>, last: string, sep: char)
    ensures Join(parts + [last], sep) == if parts == [] then last else Join(parts, sep) + [sep] + last
  {
    if |parts| > 1 {
      assert (parts + [last])[1..] == parts[1..] + [last];
      JoinAppend(parts[1..], last, sep);
    }
  }

  /** `s.split(sep)` for a one-character separator: always at least one
      piece, and no piece holds `sep`; joining the pieces gives `s` back
      (SplitJoin). These facts determine the pieces (SplitUnique). */
  function Split(s: string, sep: char): (r: seq<string>)
    ensures |r| >= 1
    ensures forall k :: 0 <= k < |r| ==> sep !in r[k]
  {
    if s == [] then [[]]
    else
      var rest := Split(s[1..], sep);
      if s[0] == sep then [[]] + rest
      else [[s[0]] + rest[0]] + rest[1..]
  }

  /** Joining the pieces of a split with the separator gives the string
      back. */
  lemma {:induction false} SplitJoin(s: string, sep: char)
    ensures Join(Split(s, sep), sep) == s
  {
    if s != [] {
      var rest := Split(s[1..], sep);
      SplitJoin(s[1..], sep);
      if s[0] != sep && |rest| > 1 {
        assert Join(rest, sep) == rest[0] + [sep] + Join(rest[1..], sep);
        assert Split(s, sep)[1..] == rest[1..];
      } else if s[0] == sep {
        assert Split(s, sep)[1..] == rest;
      }
    }
  }

  /** Splitting is the only way to cut `s` into separator-free pieces. */
  lemma {:induction false} SplitUnique(s: string, sep: char, parts: seq<string>)
    requires |parts| >= 1
    requires forall k :: 0 <= k < |parts| ==> sep !in parts[k]
    requires Join(parts, sep) == s
    ensures parts == Split(s, sep)
    decreases |parts|
  {
    if |parts| == 1 {
      assert sep !in s;
      SplitNoSeparator(s, sep);
    } else {
      var tail := Join(parts[1..], sep);
      assert s == parts[0] + [sep] + tail;
      SplitUnique(tail, sep, parts[1..]);
      SplitAfterSeparatorFree(parts[0], sep, tail);
    }
  }

  /** A string without the separator is a single piece. */
  lemma {:induction false} SplitNoSeparator(s: string, sep: char)
    requires sep !in s
    ensures Split(s, sep) == [s]
  {
    if s != [] {
      SplitNoSeparator(s[1..], sep);
      assert [s[0]] + s[1..] == s;
    }
  }

  /** Splitting `a + [sep] + b` with `a` separator-free gives `a`
      followed by the pieces of `b`. */
  lemma {:induction false} SplitAfterSeparatorFree(a: string, sep: char, b: string)
    requires sep !in a
    ensures Split(a + [sep] + b, sep) == [a] + Split(b, sep)
  {
    if a == [] {
      assert (a + [sep] + b)[1..] == b;
    } else {
      assert (a + [sep] + b)[1..] == a[1..] + [sep] + b;
      SplitAfterSeparatorFree(a[1..], sep, b);
      assert [a[0]] + a[1..] == a;
    }
  }

  /** A separator-free last piece is split off on its own. */
  lemma SplitAppend(a: string, sep: char, b: string)
    requires sep !in b
    ensures Split(a + [sep] + b, sep) == Split(a, sep) + [b]
  {
    var parts := Split(a, sep) + [b];
    JoinAppend(Split(a, sep), b, sep);
    SplitJoin(a, sep);
    SplitUnique(a + [sep] + b, sep, parts);
  }

  /** Python's `<=` on `str`: code point by code point, a proper prefix
      before any of its extensions. (Dafny's own `<` on sequences is the
      proper-prefix relation, not this order.) */
  predicate LexLe(a: string, b: string) {
    a == [] || (b != [] && (a[0] < b[0] || (a[0] == b[0] && LexLe(a[1..], b[1..]))))
  }

  /** Python's `<` on `str`. */
  predicate LexLt(a: string, b: string) {
    LexLe(a, b) && a != b
  }

  lemma {:induction false} LexLeReflexive(a: string)
    ensures LexLe(a, a)
  {
    if a != [] {
      LexLeReflexive(a[1..]);
    }
  }

  lemma {:induction false} LexLeAntisymmetric(a: string, b: string)
    requires LexLe(a, b) && LexLe(b, a)
    ensures a == b
  {
    if a != [] && b != [] {
      LexLeAntisymmetric(a[1..], b[1..]);
      assert a == [a[0]] + a[1..] && b == [b[0]] + b[1..];
    }
  }

  lemma {:induction false} LexLeTransitive(a: string, b: string, c: string)
    requires LexLe(a, b) && LexLe(b, c)
    ensures LexLe(a, c)
  {
    if a != [] && b != [] && c != [] && a[0] == b[0] == c[0] {
      LexLeTransitive(a[1..], b[1..], c[1..]);
    }
  }

  lemma {:induction false} LexLeTotal(a: string, b: string)
    ensures LexLe(a, b) || LexLe(b, a)
  {
    if a != [] && b != [] && a[0] == b[0] {
      LexLeTotal(a[1..], b[1..]);
    }
  }

  /** Antisymmetry for every pair at once, so that a set has at most
      one least element. */
  lemma LeastUnique()
    ensures forall a, b :: LexLe(a, b) && LexLe(b, a) ==> a == b
  {
    forall a, b | LexLe(a, b) && LexLe(b, a) ensures a == b {
      LexLeAntisymmetric(a, b);
    }
  }

  /** The facts above, for every pair and triple at once. */
  lemma LexLeIsTotalOrder()
    ensures forall a :: LexLe(a, a)
    ensures forall a, b :: LexLe(a, b) && LexLe(b, a) ==> a == b
    ensures forall a, b, c :: LexLe(a, b) && LexLe(b, c) ==> LexLe(a, c)
    ensures forall a, b :: LexLe(a, b) || LexLe(b, a)
  {
    forall a ensures LexLe(a, a) {
      LexLeReflexive(a);
    }
    forall a, b | LexLe(a, b) && LexLe(b, a) ensures a == b {
      LexLeAntisymmetric(a, b);
    }
    forall a, b, c | LexLe(a, b) && LexLe(b, c) ensures LexLe(a, c) {
      LexLeTransitive(a, b, c);
    }
    forall a, b ensures LexLe(a, b) || LexLe(b, a) {
      LexLeTotal(a, b);
    }
  }

  /** Strictly ascending under Python's string order: `sorted` applied
      to a set's elements. */
  predicate StrictlyAscending(s: seq<string>) {
    forall i, j :: 0 <= i < j < |s| ==> LexLt(s[i], s[j])
  }

  /** `m` is the least element of `keys`. */
  predicate IsLeast(m: string, keys: set<string>) {
    m in keys && forall x :: x in keys ==> LexLe(m, x)
  }

  /** `sorted(keys)` for a set of strings: its elements, each once, in
      ascending order. */
  function SortedKeys(keys: set<string>): (r: seq<string>)
    ensures forall x :: x in r <==> x in keys
    ensures StrictlyAscending(r)
    decreases keys
  {
    if keys == {} then []
    else
      LeastExists(keys);
      LeastUnique();
      var m :| IsLeast(m, keys);
      var rest := SortedKeys(keys - {m});
      [m] + rest
  }

  /** Every finite non-empty set of strings has a least element. */
  lemma {:induction false} LeastExists(keys: set<string>)
    requires keys != {}
    ensures exists m :: IsLeast(m, keys)
    decreases keys
  {
    var y :| y in keys;
    LexLeReflexive(y);
    if keys == {y} {
      assert IsLeast(y, keys);
    } else {
      LeastExists(keys - {y});
      var m :| IsLeast(m, keys - {y});
      LeastOfOneMore(keys - {y}, m, y);
      assert keys == (keys - {y}) + {y};
      if !IsLeast(m, keys) {
        assert IsLeast(y, keys);
      }
    }
  }

  /** Adding `y` to a set whose least element is `m`: the least element
      is `m` or `y`. */
  lemma LeastOfOneMore(keys: set<string>, m: string, y: string)
    requires IsLeast(m, keys)
    ensures IsLeast(m, keys + {y}) || IsLeast(y, keys + {y})
  {
    LexLeTotal(m, y);
    LexLeReflexive(y);
    if !LexLe(m, y) {
      forall x | x in keys + {y} ensures LexLe(y, x) {
        if x != y {
          LexLeTransitive(y, m, x);
        }
      }
    }
  }
}
