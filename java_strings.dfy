/**
 * The few `java.lang.String` operations the configuration id parser relies
 * on: `trim`, `replace` of a character by nothing, `split` on a single
 * literal character (trailing empty pieces dropped) and `equalsIgnoreCase`
 * (folding ASCII letters plus U+0130, U+0131, U+017F and the Kelvin sign
 * U+212A; other non-ASCII case pairs are compared literally).
 */
module JavaStrings {

  /** `trim` strips every character at or below U+0020 at both ends. */
  predicate IsTrimmed(c: char)
  {
    c <= ' '
  }

  function TrimStart(s: string): (r: string)
    ensures |r| <= |s| && r == s[|s| - |r|..]
    ensures forall i :: 0 <= i < |s| - |r| ==> IsTrimmed(s[i])
    ensures r == [] || !IsTrimmed(r[0])
  {
    if s != [] && IsTrimmed(s[0]) then TrimStart(s[1..]) else s
  }

  function TrimEnd(s: string): (r: string)
    ensures |r| <= |s| && r == s[..|r|]
    ensures forall i :: |r| <= i < |s| ==> IsTrimmed(s[i])
    ensures r == [] || !IsTrimmed(r[|r| - 1])
  {
    if s != [] && IsTrimmed(s[|s| - 1]) then TrimEnd(s[..|s| - 1]) else s
  }

  /** `String.trim`: empty exactly when every character is trimmed, otherwise starting and ending on a kept character. */
  function Trim(s: string): (r: string)
    ensures r == [] <==> forall i :: 0 <= i < |s| ==> IsTrimmed(s[i])
    ensures r != [] ==> !IsTrimmed(r[0]) && !IsTrimmed(r[|r| - 1])
    ensures forall x :: x in r ==> x in s
  {
    var t := TrimStart(s);
    assert forall i :: |s| - |t| <= i < |s| ==> s[i] == t[i - (|s| - |t|)];
    TrimEnd(t)
  }

  /** Cutting stops at the first kept character. */
  lemma {:induction false} TrimStartAt(s: string, i: nat)
    requires i <= |s| && (i == |s| || !IsTrimmed(s[i]))
    requires forall k :: 0 <= k < i ==> IsTrimmed(s[k])
    ensures TrimStart(s) == s[i..]
  {
    if i > 0 {
      TrimStartAt(s[1..], i - 1);
      assert s[1..][i - 1..] == s[i..];
    }
  }

  /** Cutting from the end stops at the last kept character. */
  lemma {:induction false} TrimEndAt(s: string, j: nat)
    requires j <= |s| && (j == 0 || !IsTrimmed(s[j - 1]))
    requires forall k :: j <= k < |s| ==> IsTrimmed(s[k])
    ensures TrimEnd(s) == s[..j]
    decreases |s| - j
  {
    if j < |s| {
      var init := s[..|s| - 1];
      TrimEndAt(init, j);
      assert init[..j] == s[..j];
    }
  }

  lemma TrimEndOfSuffix(s: string, i: nat, j: nat)
    requires i < j <= |s| && !IsTrimmed(s[j - 1])
    requires forall k :: j <= k < |s| ==> IsTrimmed(s[k])
    ensures TrimEnd(s[i..]) == s[i..j]
  {
    var t := s[i..];
    assert !IsTrimmed(t[j - i - 1]) by {
      assert t[j - i - 1] == s[j - 1];
    }
    assert forall k :: j - i <= k < |t| ==> IsTrimmed(t[k]) by {
      forall k | j - i <= k < |t| ensures IsTrimmed(t[k]) {
        assert t[k] == s[i + k];
      }
    }
    TrimEndAt(t, j - i);
    assert t[..j - i] == s[i..j];
  }

  /**
   * The trim is the slice between the cut points: given the slice `s[i..j]`
   * that starts and ends on a kept character, with every character outside
   * it trimmed, `trim` returns exactly that slice.
   */
  lemma TrimIsSlice(s: string, i: nat, j: nat)
    requires i <= j <= |s|
    requires forall k :: 0 <= k < i ==> IsTrimmed(s[k])
    requires forall k :: j <= k < |s| ==> IsTrimmed(s[k])
    requires i < j ==> !IsTrimmed(s[i]) && !IsTrimmed(s[j - 1])
    ensures Trim(s) == s[i..j]
  {
    assert Trim(s) == TrimEnd(TrimStart(s));
    if i < j {
      TrimStartAt(s, i);
      TrimEndOfSuffix(s, i, j);
    } else {
      TrimStartAt(s, |s|);
      TrimEndAt([], 0);
    }
  }

  /** A string that already starts and ends on kept characters is its own trim. */
  lemma TrimOfTrimmed(s: string)
    requires s != [] ==> !IsTrimmed(s[0]) && !IsTrimmed(s[|s| - 1])
    ensures Trim(s) == s
  {
  }

  /** `s.replace(c, "")`: every `c` is gone and every other character stays, in order. */
  function RemoveAll(s: string, c: char): (r: string)
    ensures c !in r
    ensures forall x :: x in r <==> x in s && x != c
  {
    if s == [] then []
    else
      assert s == [s[0]] + s[1..];
      (if s[0] == c then [] else [s[0]]) + RemoveAll(s[1..], c)
  }

  /** The result is shorter by the number of `c` in `s`. */
  lemma {:induction false} RemoveAllLength(s: string, c: char)
    ensures |RemoveAll(s, c)| == |s| - multiset(s)[c]
  {
    if s != [] {
      RemoveAllLength(s[1..], c);
      assert s == [s[0]] + s[1..];
    }
  }

  /** Removing works piece by piece, so the characters that stay keep their order. */
  lemma {:induction false} RemoveAllAppend(a: string, b: string, c: char)
    ensures RemoveAll(a + b, c) == RemoveAll(a, c) + RemoveAll(b, c)
  {
    if a != [] {
      var ab := a + b;
      assert ab[0] == a[0] && ab[1..] == a[1..] + b;
      var head := if a[0] == c then [] else [a[0]];
      assert RemoveAll(ab, c) == head + RemoveAll(a[1..] + b, c);
      RemoveAllAppend(a[1..], b, c);
      assert RemoveAll(a, c) == head + RemoveAll(a[1..], c);
    } else {
      assert a + b == b;
    }
  }

  /** One character is removed exactly when it is `c`. */
  lemma RemoveAllSingle(x: char, c: char)
    ensures RemoveAll([x], c) == if x == c then [] else [x]
  {
    assert [x][1..] == [];
  }

  /** The pieces of `s` between occurrences of `c`, empty pieces included. */
  function SplitAll(s: string, c: char): (r: seq<string>)
    ensures |r| >= 1
    ensures forall i :: 0 <= i < |r| ==> c !in r[i]
  {
    if s == [] then [[]]
    else
      var rest := SplitAll(s[1..], c);
      if s[0] == c then [[]] + rest else [[s[0]] + rest[0]] + rest[1..]
  }

  /** There is one more piece than there are separators. */
  lemma {:induction false} SplitAllCount(s: string, c: char)
    ensures |SplitAll(s, c)| == multiset(s)[c] + 1
  {
    if s != [] {
      SplitAllCount(s[1..], c);
      assert s == [s[0]] + s[1..];
    }
  }

  /** The pieces glued back together with `c` between them. */
  function Join(pieces: seq<string>, c: char): string
    requires |pieces| >= 1
  {
    if |pieces| == 1 then pieces[0] else pieces[0] + [c] + Join(pieces[1..], c)
  }

  /** Splitting loses nothing: joining the pieces gives the string back. */
  lemma JoinEmptyFirst(rest: seq<string>, c: char)
    requires |rest| >= 1
    ensures Join([[]] + rest, c) == [c] + Join(rest, c)
  {
    assert ([[]] + rest)[1..] == rest;
  }

  lemma JoinExtendFirst(x: char, rest: seq<string>, c: char)
    requires |rest| >= 1
    ensures Join([[x] + rest[0]] + rest[1..], c) == [x] + Join(rest, c)
  {
    var r := [[x] + rest[0]] + rest[1..];
    if |rest| > 1 {
      assert r[1..] == rest[1..];
    }
  }

  lemma {:induction false} JoinSplitAll(s: string, c: char)
    ensures Join(SplitAll(s, c), c) == s
  {
    if s != [] {
      var rest := SplitAll(s[1..], c);
      JoinSplitAll(s[1..], c);
      if s[0] == c {
        JoinEmptyFirst(rest, c);
      } else {
        JoinExtendFirst(s[0], rest, c);
      }
      assert s == [s[0]] + s[1..];
    }
  }

  lemma {:induction false} SplitAllWithout(s: string, c: char)
    requires c !in s
    ensures SplitAll(s, c) == [s]
  {
    if s != [] {
      SplitAllWithout(s[1..], c);
      assert [s[0]] + s[1..] == s;
    }
  }

  /** A leading piece without `c` comes off as the first piece. */
  lemma {:induction false} SplitAllCons(p: string, c: char, rest: string)
    requires c !in p
    ensures SplitAll(p + [c] + rest, c) == [p] + SplitAll(rest, c)
  {
    if p != [] {
      var s := p + [c] + rest;
      assert s[0] == p[0] && s[1..] == p[1..] + [c] + rest;
      SplitAllCons(p[1..], c, rest);
      assert SplitAll(s, c) == [[p[0]] + SplitAll(s[1..], c)[0]] + SplitAll(s[1..], c)[1..];
      assert [p[0]] + p[1..] == p;
    } else {
      assert ([c] + rest)[1..] == rest;
    }
  }

  /** Pieces free of `c` are recovered exactly by splitting their join. */
  lemma {:induction false} SplitAllJoin(pieces: seq<string>, c: char)
    requires |pieces| >= 1
    requires forall i :: 0 <= i < |pieces| ==> c !in pieces[i]
    ensures SplitAll(Join(pieces, c), c) == pieces
  {
    if |pieces| == 1 {
      SplitAllWithout(pieces[0], c);
    } else {
      SplitAllJoin(pieces[1..], c);
      SplitAllCons(pieces[0], c, Join(pieces[1..], c));
    }
  }

  /** A string that starts with a character other than `c` has a non-empty first piece. */
  lemma SplitAllFirstPiece(s: string, c: char)
    requires s != [] && s[0] != c
    ensures SplitAll(s, c)[0] != []
  {
  }

  /** Drops the empty pieces at the end, as `split` does. */
  function DropTrailingEmpty(pieces: seq<string>): (r: seq<string>)
    ensures r <= pieces
    ensures r == [] || r[|r| - 1] != []
    ensures forall i :: |r| <= i < |pieces| ==> pieces[i] == []
  {
    if pieces == [] || pieces[|pieces| - 1] != [] then pieces
    else DropTrailingEmpty(pieces[..|pieces| - 1])
  }

  /**
   * `s.split(c)` for a character that is not a regular-expression
   * metacharacter: the whole string when `c` does not occur (so "" gives
   * [""]), otherwise the pieces without the trailing empty ones (so a string
   * made only of `c` gives no piece at all).
   */
  function JavaSplit(s: string, c: char): (r: seq<string>)
    ensures c !in s ==> r == [s]
    ensures c in s ==> r <= SplitAll(s, c) && (r == [] || r[|r| - 1] != [])
    ensures c in s ==> forall i :: |r| <= i < |SplitAll(s, c)| ==> SplitAll(s, c)[i] == []
  {
    if c !in s then [s] else DropTrailingEmpty(SplitAll(s, c))
  }

  /** `JavaSplit` inverts a join of two pieces free of `c` when the second is not empty. */
  lemma JavaSplitPair(p: string, c: char, a: string)
    requires c !in p && c !in a && a != []
    ensures JavaSplit(p + [c] + a, c) == [p, a]
  {
    var s := p + [c] + a;
    assert c in s by {
      assert s[|p|] == c;
    }
    assert SplitAll(s, c) == [p, a] by {
      SplitAllCons(p, c, a);
      SplitAllWithout(a, c);
    }
    assert JavaSplit(s, c) == DropTrailingEmpty([p, a]);
  }

  /**
   * The key Java's `equalsIgnoreCase` compares a character by, its upper case
   * then lower case, for the characters whose key is an ASCII letter: the
   * ASCII letters, and U+0130, U+0131, U+017F and U+212A, which fold onto
   * `i`, `i`, `s` and `k`. Every other character is its own key.
   */
  function CaseKey(c: char): char
  {
    if 'A' <= c <= 'Z' then (c as int + 32) as char
    else if c == '\U{0130}' || c == '\U{0131}' then 'i'
    else if c == '\U{017F}' then 's'
    else if c == '\U{212A}' then 'k'
    else c
  }

  /** `equalsIgnoreCase`: the same length and the same key at every position. */
  predicate EqualsIgnoreCase(a: string, b: string)
  {
    |a| == |b| && forall i :: 0 <= i < |a| ==> CaseKey(a[i]) == CaseKey(b[i])
  }

  /**
   * The characters that compare equal, ignoring case, to `y`, a lower-case
   * ASCII letter or a character that is no letter: `y` itself, its upper-case
   * form, and for `i`, `s` and `k` the non-ASCII letters that fold to them.
   */
  predicate FoldsTo(x: char, y: char)
  {
    || x == y
    || ('a' <= y <= 'z' && x as int == y as int - 32)
    || (y == 'i' && (x == '\U{0130}' || x == '\U{0131}'))
    || (y == 's' && x == '\U{017F}')
    || (y == 'k' && x == '\U{212A}')
  }

  /**
   * Against a string of lower-case ASCII letters and non-letters below `A`,
   * `equalsIgnoreCase` accepts exactly the strings of the same length that
   * spell each character in one of its `FoldsTo` forms.
   */
  lemma EqualsIgnoreCaseLower(a: string, b: string)
    requires forall i :: 0 <= i < |b| ==> 'a' <= b[i] <= 'z' || b[i] < 'A'
    ensures EqualsIgnoreCase(a, b) <==> |a| == |b| && forall i :: 0 <= i < |a| ==> FoldsTo(a[i], b[i])
  {
    if |a| == |b| {
      forall i | 0 <= i < |a| ensures CaseKey(a[i]) == CaseKey(b[i]) <==> FoldsTo(a[i], b[i]) {
        assert CaseKey(b[i]) == b[i];
      }
    }
  }

  /** Comparing ignoring case is an equivalence, and letters that differ only in ASCII case compare equal. */
  lemma EqualsIgnoreCaseIsEquivalence(a: string, b: string, d: string)
    ensures EqualsIgnoreCase(a, a)
    ensures EqualsIgnoreCase(a, b) ==> EqualsIgnoreCase(b, a)
    ensures EqualsIgnoreCase(a, b) && EqualsIgnoreCase(b, d) ==> EqualsIgnoreCase(a, d)
    ensures forall x :: 'a' <= x <= 'z' ==> EqualsIgnoreCase([x], [(x as int - 32) as char])
  {
  }
}
