/**
 * Character-sequence helpers shared by the nictag library and the SMBIOS
 * collector: C strings, searching for a character, splitting and joining on a
 * separator, removing a character, and hexadecimal digits.
 */
module Strings {

  import opened Options

  /** An unsigned 8-bit value (a MAC octet, a UUID byte). */
  type uint8 = x: int | 0 <= x < 256

  /**
   * Concatenation is associative. A proof helper with no counterpart in the
   * C code: proofs call it to regroup a concatenation without unfolding.
   */
  lemma Assoc<T>(a: seq<T>, b: seq<T>, c: seq<T>)
    ensures a + b + c == a + (b + c)
  {
  }

  // ---------------------------------------------------------------------------
  // C strings

  /** The C string held in `s`: its characters before the first NUL, or all of `s`. */
  function CStr(s: seq<char>): (r: seq<char>)
    ensures r <= s
    ensures '\0' !in r
    ensures |r| == |s| || s[|r|] == '\0'
  {
    if s == [] || s[0] == '\0' then [] else [s[0]] + CStr(s[1..])
  }

  /** A NUL at index `k`, and none before it, ends the C string there. */
  lemma CStrTerminated(s: seq<char>, k: nat)
    requires k < |s| && s[k] == '\0' && '\0' !in s[..k]
    ensures CStr(s) == s[..k]
  {
  }

  /** A sequence without NUL is its own C string. */
  lemma CStrNoNul(s: seq<char>)
    requires '\0' !in s
    ensures CStr(s) == s
  {
  }

  /** A NUL-free head passes through to the C string of a concatenation. */
  lemma {:induction false} CStrAppend(a: seq<char>, b: seq<char>)
    requires '\0' !in a
    ensures CStr(a + b) == a + CStr(b)
  {
    if a != [] {
      assert (a + b)[0] == a[0] && (a + b)[1..] == a[1..] + b;
      CStrAppend(a[1..], b);
      assert a == [a[0]] + a[1..];
    } else {
      assert a + b == b;
    }
  }

  /** A stretch of the C string of `s` is the same stretch of `s`, and holds no NUL. */
  lemma CStrSlice(s: seq<char>, from: nat, to: nat)
    requires from <= to <= |CStr(s)|
    ensures CStr(s)[from..to] == s[from..to]
    ensures '\0' !in s[from..to]
  {
    var t := CStr(s);
    assert t[from..to] == s[from..to];
    forall x | from <= x < to ensures s[x] != '\0' {
      assert s[x] == t[x];
    }
  }

  /** Reads the C string stored in `a` up to its first NUL, as `strlen` does. */
  method ReadCString(a: array<char>) returns (s: string)
    requires '\0' in a[..]
    ensures s == CStr(a[..])
  {
    var n := 0;
    while a[n] != '\0'
      invariant 0 <= n < a.Length
      invariant '\0' !in a[..n]
      invariant '\0' in a[n..]
      decreases a.Length - n
    {
      assert a[n..] == [a[n]] + a[n + 1..];
      n := n + 1;
      assert a[..n] == a[..n - 1] + [a[n - 1]];
    }
    s := a[..n];
    CStrTerminated(a[..], n);
  }

  // ---------------------------------------------------------------------------
  // Searching

  /** The index of the first `c` in `s`. */
  function IndexOf(s: seq<char>, c: char): (k: nat)
    requires c in s
    ensures k < |s| && s[k] == c && c !in s[..k]
  {
    if s[0] == c then 0 else 1 + IndexOf(s[1..], c)
  }

  /** An occurrence of `c` with none before it is the one `IndexOf` finds. */
  lemma IndexOfUnique(s: seq<char>, c: char, k: nat)
    requires k < |s| && s[k] == c && c !in s[..k]
    ensures IndexOf(s, c) == k
  {
  }

  /**
   * Writes `src` and then a NUL at offset `n` of `dst` and returns the
   * offset of that NUL: what `sprintf` into `dst + n` does, and `strcat`
   * onto a C string of length `n`; the cells after the NUL keep their contents.
   */
  method WriteString(dst: array<char>, n: nat, src: string) returns (m: nat)
    requires n + |src| < dst.Length
    modifies dst
    ensures m == n + |src|
    ensures dst[..m] == old(dst[..n]) + src && dst[m] == '\0'
    ensures forall x :: m < x < dst.Length ==> dst[x] == old(dst[x])
  {
    var k := 0;
    while k < |src|
      invariant 0 <= k <= |src|
      invariant forall x :: 0 <= x < n ==> dst[x] == old(dst[x])
      invariant forall x :: 0 <= x < k ==> dst[n + x] == src[x]
      invariant forall x :: n + k <= x < dst.Length ==> dst[x] == old(dst[x])
    {
      dst[n + k] := src[k];
      k := k + 1;
    }
    m := n + |src|;
    dst[m] := '\0';
    assert dst[..m] == old(dst[..n]) + src by {
      forall x | 0 <= x < m ensures dst[..m][x] == (old(dst[..n]) + src)[x] {
        if x >= n {
          assert dst[n + (x - n)] == src[x - n];
        }
      }
    }
  }

  /**
   * Searches `s` for `c` from index `from`, as `strchr` does on a C string:
   * the search stops at the first NUL, which ends the string.
   */
  method StrChr(s: seq<char>, from: nat, c: char) returns (r: Option<nat>)
    requires c != '\0' && from <= |CStr(s)|
    ensures r.None? ==> c !in CStr(s)[from..]
    ensures r.Some? ==> from <= r.value < |CStr(s)| && CStr(s)[r.value] == c
                        && c !in CStr(s)[from..r.value]
  {
    ghost var t := CStr(s);
    var i := from;
    while i < |s| && s[i] != '\0' && s[i] != c
      invariant from <= i <= |t|
      invariant c !in t[from..i]
      decreases |s| - i
    {
      CStrAt(s, i);
      NotInExtend(t, from, i, c);
      i := i + 1;
    }
    if i < |s| && s[i] == c {
      CStrAt(s, i);
      r := Some(i);
    } else {
      CStrEnd(s, i);
      assert t[from..i] == t[from..];
      r := None;
    }
  }

  /** A scan for `c` that passes another character still has not met `c`. */
  lemma NotInExtend<T>(t: seq<T>, from: nat, i: nat, c: T)
    requires from <= i < |t| && t[i] != c && c !in t[from..i]
    ensures c !in t[from..i + 1]
  {
    assert t[from..i + 1] == t[from..i] + [t[i]];
  }

  /** A character of `s` that is not NUL, at an index the C string reaches, is in the C string. */
  lemma CStrAt(s: seq<char>, i: nat)
    requires i <= |CStr(s)| && i < |s| && s[i] != '\0'
    ensures i < |CStr(s)| && CStr(s)[i] == s[i]
  {
  }

  /** The C string ends where `s` ends or holds a NUL. */
  lemma CStrEnd(s: seq<char>, i: nat)
    requires i <= |CStr(s)| && (i == |s| || (i < |s| && s[i] == '\0'))
    ensures i == |CStr(s)|
  {
  }

  // ---------------------------------------------------------------------------
  // Splitting and joining

  /** The `sep`-separated segments of `s`, in order, empty ones included. */
  function Split(s: string, sep: char): (parts: seq<string>)
    ensures |parts| >= 1
    decreases |s|
  {
    if sep !in s then [s]
    else
      var k := IndexOf(s, sep);
      [s[..k]] + Split(s[k + 1..], sep)
  }

  /** No segment holds the separator. */
  lemma {:induction false} SplitSegments(s: string, sep: char)
    ensures forall i :: 0 <= i < |Split(s, sep)| ==> sep !in Split(s, sep)[i]
    decreases |s|
  {
    if sep in s {
      var k := IndexOf(s, sep);
      SplitSegments(s[k + 1..], sep);
    }
  }

  /** A character missing from the text is missing from every segment. */
  lemma {:induction false} SplitSegmentsOmit(s: string, sep: char, x: char)
    requires x !in s
    ensures forall i :: 0 <= i < |Split(s, sep)| ==> x !in Split(s, sep)[i]
    decreases |s|
  {
    if sep in s {
      var k := IndexOf(s, sep);
      SplitSegmentsOmit(s[k + 1..], sep, x);
    }
  }

  /** The segments `parts` written out with `sep` between consecutive ones. */
  function Join(parts: seq<string>, sep: char): string
  {
    if |parts| == 0 then []
    else if |parts| == 1 then parts[0]
    else parts[0] + [sep] + Join(parts[1..], sep)
  }

  /** Splitting at a first separator at `k` gives the text before it, then the rest's segments. */
  lemma SplitStep(s: string, sep: char, k: nat)
    requires k < |s| && s[k] == sep && sep !in s[..k]
    ensures Split(s, sep) == [s[..k]] + Split(s[k + 1..], sep)
  {
    IndexOfUnique(s, sep, k);
  }

  /** `SplitStep` on the suffix of `s` that starts at `from`. */
  lemma SplitFrom(s: string, sep: char, from: nat, k: nat)
    requires from <= k < |s| && s[k] == sep && sep !in s[from..k]
    ensures Split(s[from..], sep) == [s[from..k]] + Split(s[k + 1..], sep)
  {
    var t := s[from..];
    var j := k - from;
    assert t[..j] == s[from..k];
    assert t[j + 1..] == s[k + 1..];
    assert t[j] == sep;
    SplitStep(t, sep, j);
  }

  /** Joining the segments that `Split` produces gives back the text. */
  lemma {:induction false} JoinSplit(s: string, sep: char)
    ensures Join(Split(s, sep), sep) == s
    decreases |s|
  {
    if sep in s {
      var k := IndexOf(s, sep);
      var head, rest := s[..k], s[k + 1..];
      assert s == head + [sep] + rest;
      JoinSplit(rest, sep);
      SplitCons(head, rest, sep);
      JoinCons(head, Split(rest, sep), sep);
    }
  }

  /** Joining a segment in front of at least one other. */
  lemma JoinCons(head: string, parts: seq<string>, sep: char)
    requires |parts| >= 1
    ensures Join([head] + parts, sep) == head + [sep] + Join(parts, sep)
  {
    var q := [head] + parts;
    assert q[0] == head && q[1..] == parts;
  }

  /** Splitting a join of separator-free segments gives back the segments. */
  lemma {:induction false} SplitJoin(parts: seq<string>, sep: char)
    requires |parts| >= 1
    requires forall i :: 0 <= i < |parts| ==> sep !in parts[i]
    ensures Split(Join(parts, sep), sep) == parts
  {
    if |parts| > 1 {
      var rest := parts[1..];
      assert forall i :: 0 <= i < |rest| ==> sep !in rest[i] by {
        forall i | 0 <= i < |rest| ensures sep !in rest[i] { assert rest[i] == parts[i + 1]; }
      }
      SplitJoin(rest, sep);
      SplitCons(parts[0], Join(rest, sep), sep);
      assert parts == [parts[0]] + rest;
    }
  }

  /** Appending one more segment to a join adds a separator and the segment. */
  lemma {:induction false} JoinSnoc(parts: seq<string>, p: string, sep: char)
    requires |parts| >= 1
    ensures Join(parts + [p], sep) == Join(parts, sep) + [sep] + p
  {
    if |parts| > 1 {
      assert (parts + [p])[1..] == parts[1..] + [p];
      JoinSnoc(parts[1..], p, sep);
    }
  }

  /** There is one segment more than there are separators. */
  lemma {:induction false} SplitCount(s: string, sep: char)
    ensures |Split(s, sep)| == multiset(s)[sep] + 1
    decreases |s|
  {
    if sep in s {
      var k := IndexOf(s, sep);
      var head, rest := s[..k], s[k + 1..];
      assert s == head + [sep] + rest;
      SplitCount(rest, sep);
      SplitCons(head, rest, sep);
      assert multiset(s) == multiset(head) + multiset([sep]) + multiset(rest);
      assert multiset(head)[sep] == 0;
    } else {
      assert multiset(s)[sep] == 0;
    }
  }

  /** Splitting a separator-free head, a separator and a rest. */
  lemma SplitCons(head: string, rest: string, sep: char)
    requires sep !in head
    ensures Split(head + [sep] + rest, sep) == [head] + Split(rest, sep)
  {
    var s := head + [sep] + rest;
    assert s[..|head|] == head;
    assert s[|head|] == sep;
    assert s[|head| + 1..] == rest;
    SplitStep(s, sep, |head|);
  }

  /** A separator splits the text into the segments before it and those after it. */
  lemma {:induction false} SplitAppend(a: string, b: string, sep: char)
    ensures Split(a + [sep] + b, sep) == Split(a, sep) + Split(b, sep)
    decreases |a|
  {
    if sep in a {
      var k := IndexOf(a, sep);
      var head, rest := a[..k], a[k + 1..];
      assert a == head + [sep] + rest;
      SplitAppend(rest, b, sep);
      SplitAppendStep(head, rest, b, sep);
    } else {
      SplitCons(a, b, sep);
    }
  }

  /** The inductive step of `SplitAppend`, for `a` = `head + [sep] + rest`. */
  lemma SplitAppendStep(head: string, rest: string, b: string, sep: char)
    requires sep !in head
    requires Split(rest + [sep] + b, sep) == Split(rest, sep) + Split(b, sep)
    ensures Split(head + [sep] + rest + [sep] + b, sep) == Split(head + [sep] + rest, sep) + Split(b, sep)
  {
    assert head + [sep] + rest + [sep] + b == head + [sep] + (rest + [sep] + b);
    SplitCons(head, rest + [sep] + b, sep);
    SplitCons(head, rest, sep);
    Assoc([head], Split(rest, sep), Split(b, sep));
  }

  // ---------------------------------------------------------------------------
  // Removing a character

  /** `s` with every occurrence of `c` removed, the other characters kept in order. */
  function Without(s: string, c: char): (r: string)
    ensures c !in r && |r| <= |s|
  {
    if s == [] then []
    else
      var last := s[|s| - 1];
      Without(s[..|s| - 1], c) + (if last == c then [] else [last])
  }

  /** Removing `c` adds no character: one absent from `s` is absent from the result. */
  lemma NoneWithout(s: string, c: char, x: char)
    requires x !in s
    ensures x !in Without(s, c)
  {
    WithoutCounts(s, c);
    assert multiset(Without(s, c))[x] == 0;
  }

  /** Removing a character that does not occur changes nothing. */
  lemma {:induction false} WithoutAbsent(s: string, c: char)
    requires c !in s
    ensures Without(s, c) == s
    decreases |s|
  {
    if s != [] {
      WithoutAbsent(s[..|s| - 1], c);
    }
  }

  /** `Without` removes exactly the occurrences of `c`: every other character keeps its count. */
  lemma {:induction false} WithoutCounts(s: string, c: char)
    ensures multiset(Without(s, c)) == multiset(s)[c := 0]
    decreases |s|
  {
    if s != [] {
      var init, last := s[..|s| - 1], s[|s| - 1];
      WithoutCounts(init, c);
      assert s == init + [last];
      assert multiset(s) == multiset(init) + multiset{last};
      if last == c {
        assert Without(s, c) == Without(init, c);
        assert (multiset(init) + multiset{last})[c := 0] == multiset(init)[c := 0];
      } else {
        assert Without(s, c) == Without(init, c) + [last];
        assert multiset(Without(s, c)) == multiset(init)[c := 0] + multiset{last};
        assert (multiset(init) + multiset{last})[c := 0] == multiset(init)[c := 0] + multiset{last};
      }
    }
  }

  /** Removing `c` from a longer text: the last character stays unless it is `c`. */
  lemma WithoutSnoc(s: string, x: char, c: char)
    ensures Without(s + [x], c) == Without(s, c) + (if x == c then [] else [x])
  {
    assert (s + [x])[..|s + [x]| - 1] == s;
  }

  // ---------------------------------------------------------------------------
  // Hexadecimal digits

  /** A hexadecimal digit, in either case, as `%x` reads it. */
  predicate IsHexDigit(ch: char)
  {
    '0' <= ch <= '9' || 'a' <= ch <= 'f' || 'A' <= ch <= 'F'
  }

  /** A digit as `%x` prints it: 0-9 and lower-case a-f. */
  predicate IsLowerHexDigit(ch: char)
  {
    '0' <= ch <= '9' || 'a' <= ch <= 'f'
  }

  /** Every character of `s` is a hexadecimal digit. */
  predicate AllHex(s: string)
  {
    forall i :: 0 <= i < |s| ==> IsHexDigit(s[i])
  }

  /** The lower-case digit that `%x` prints for `d`. */
  function HexDigit(d: nat): (ch: char)
    requires d < 16
    ensures IsLowerHexDigit(ch)
  {
    if d < 10 then ('0' as int + d) as char else ('a' as int + d - 10) as char
  }

  /** The value of one hexadecimal digit. */
  function DigitValue(ch: char): (d: nat)
    requires IsHexDigit(ch)
    ensures d < 16
  {
    if ch <= '9' then ch as int - '0' as int
    else if ch >= 'a' then ch as int - 'a' as int + 10
    else ch as int - 'A' as int + 10
  }

  /** The number a string of hexadecimal digits denotes (most significant first). */
  function HexValue(s: string): nat
    requires AllHex(s)
  {
    if s == [] then 0 else 16 * HexValue(s[..|s| - 1]) + DigitValue(s[|s| - 1])
  }

  /** `b` printed with `%02x`: two lower-case hexadecimal digits. */
  function Hex2(b: uint8): (s: string)
    ensures |s| == 2 && IsLowerHexDigit(s[0]) && IsLowerHexDigit(s[1])
  {
    [HexDigit(b / 16), HexDigit(b % 16)]
  }

  /** Reading back what `%02x` printed gives the byte. */
  lemma HexValueOfHex2(b: uint8)
    ensures AllHex(Hex2(b)) && HexValue(Hex2(b)) == b
  {
    var s := Hex2(b);
    assert DigitValue(s[0]) == b / 16;
    assert DigitValue(s[1]) == b % 16;
    assert s[..1][..0] == [];
    assert HexValue(s[..1]) == b / 16;
  }
}
