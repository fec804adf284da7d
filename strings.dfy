/**
 * The handful of Python `str` operations the core relies on, over `seq<char>`:
 * `isspace`, `lower`, `strip`, `startswith`, the `in` operator, `replace`,
 * `split` on one character, `join`, slicing with `[:n]`, and the regular
 * expression substitutions that replace runs of one character class.
 */
module Strings {

  /** Python's `str.isspace` for one character (also what `\s` matches in a `str` pattern). */
  predicate IsSpace(c: char) {
    c == ' ' || ('\t' <= c <= '\r') || ('\U{1c}' <= c <= '\U{1f}')
    || c == '\U{85}' || c == '\U{a0}' || c == '\U{1680}' || ('\U{2000}' <= c <= '\U{200a}')
    || c == '\U{2028}' || c == '\U{2029}' || c == '\U{202f}' || c == '\U{205f}' || c == '\U{3000}'
  }

  predicate IsNewline(c: char) {
    c == '\n'
  }

  predicate AllSpace(s: string) {
    forall i :: 0 <= i < |s| ==> IsSpace(s[i])
  }

  /**
   * `str.lower` on one character, for ASCII, Latin-1 and the capital letters
   * of the Vietnamese alphabet; every other character is its own lower case here.
   */
  function LowerChar(c: char): (r: char)
    ensures IsSpace(r) == IsSpace(c)
    ensures 'A' <= c <= 'Z' ==> r as int == c as int + 32
  {
    if 'A' <= c <= 'Z' then (c as int + 32) as char
    else if '\U{c0}' <= c <= '\U{de}' && c != '\U{d7}' then (c as int + 32) as char
    else if c == '\U{102}' || c == '\U{110}' || c == '\U{128}' || c == '\U{168}'
         || c == '\U{1a0}' || c == '\U{1af}' then (c as int + 1) as char
    else if '\U{1ea0}' <= c <= '\U{1ef8}' && c as int % 2 == 0 then (c as int + 1) as char
    else c
  }

  function Lower(s: string): string {
    seq(|s|, i requires 0 <= i < |s| => LowerChar(s[i]))
  }

  lemma LowerCharIdempotent(c: char)
    ensures LowerChar(LowerChar(c)) == LowerChar(c)
  {
  }

  lemma LowerIdempotent(s: string)
    ensures Lower(Lower(s)) == Lower(s)
  {
    forall i | 0 <= i < |s| {
      LowerCharIdempotent(s[i]);
    }
  }

  lemma LowerConcat(a: string, b: string)
    ensures Lower(a + b) == Lower(a) + Lower(b)
  {
  }

  /** `str.lstrip()` with no argument. */
  function LStrip(s: string): string
    decreases |s|
  {
    if s != [] && IsSpace(s[0]) then LStrip(s[1..]) else s
  }

  /** `lstrip` removes a whitespace-only front and stops at the first other character. */
  lemma {:induction false} LStripSpec(s: string)
    ensures var r := LStrip(s);
      (r == [] || !IsSpace(r[0])) && |r| <= |s| && r == s[|s| - |r|..] && AllSpace(s[..|s| - |r|])
    decreases |s|
  {
    if s != [] && IsSpace(s[0]) {
      LStripSpec(s[1..]);
      var r := LStrip(s);
      assert s[1..][|s| - 1 - |r|..] == s[|s| - |r|..];
      assert forall i :: 1 <= i < |s| - |r| ==> s[i] == s[1..][..|s| - 1 - |r|][i - 1];
    }
  }

  /** `str.rstrip()` with no argument. */
  function RStrip(s: string): string
    decreases |s|
  {
    if s != [] && IsSpace(s[|s| - 1]) then RStrip(s[..|s| - 1]) else s
  }

  /** `rstrip` removes a whitespace-only back and stops at the last other character. */
  lemma {:induction false} RStripSpec(s: string)
    ensures var r := RStrip(s);
      (r == [] || !IsSpace(r[|r| - 1])) && |r| <= |s| && r == s[..|r|] && AllSpace(s[|r|..])
    decreases |s|
  {
    if s != [] && IsSpace(s[|s| - 1]) {
      var t := s[..|s| - 1];
      RStripSpec(t);
      var r := RStrip(s);
      assert t[..|r|] == s[..|r|];
      assert forall i :: |r| <= i < |s| - 1 ==> s[i] == t[|r|..][i - |r|];
    }
  }

  /** `str.strip()` with no argument. */
  function Strip(s: string): (r: string)
  {
    RStrip(LStrip(s))
  }

  /**
   * What `strip` promises: the result has no whitespace at either end, and
   * it is what is left of `s` once whitespace-only margins are cut off.
   */
  lemma StripShape(s: string)
    ensures var r := Strip(s);
      (r == [] || (!IsSpace(r[0]) && !IsSpace(r[|r| - 1])))
      && exists i :: 0 <= i <= |s| - |r| && s[i..i + |r|] == r
                     && AllSpace(s[..i]) && AllSpace(s[i + |r|..])
  {
    var l := LStrip(s);
    var r := RStrip(l);
    LStripSpec(s);
    RStripSpec(l);
    var i := |s| - |l|;
    assert s[i..i + |r|] == l[..|r|];
    assert s[i + |r|..] == l[|r|..];
  }

  lemma {:induction false} LStripPadded(p: string, x: string)
    requires AllSpace(p)
    ensures LStrip(p + x) == LStrip(x)
    decreases |p|
  {
    if p != [] {
      assert (p + x)[0] == p[0];
      assert (p + x)[1..] == p[1..] + x;
      LStripPadded(p[1..], x);
    } else {
      assert p + x == x;
    }
  }

  lemma {:induction false} RStripPadded(x: string, q: string)
    requires AllSpace(q)
    ensures RStrip(x + q) == RStrip(x)
    decreases |q|
  {
    if q != [] {
      assert (x + q)[|x + q| - 1] == q[|q| - 1];
      assert (x + q)[..|x + q| - 1] == x + q[..|q| - 1];
      RStripPadded(x, q[..|q| - 1]);
    } else {
      assert x + q == x;
    }
  }

  lemma {:induction false} LStripAppend(x: string, q: string)
    requires LStrip(x) != []
    ensures LStrip(x + q) == LStrip(x) + q
    decreases |x|
  {
    if IsSpace(x[0]) {
      assert (x + q)[1..] == x[1..] + q;
      LStripAppend(x[1..], q);
    }
  }

  lemma {:induction false} LStripAllSpace(q: string)
    requires AllSpace(q)
    ensures LStrip(q) == []
    decreases |q|
  {
    if q != [] {
      LStripAllSpace(q[1..]);
    }
  }

  /** Whitespace around a string does not change what `strip` returns. */
  lemma StripPadded(p: string, x: string, q: string)
    requires AllSpace(p) && AllSpace(q)
    ensures Strip(p + x + q) == Strip(x)
  {
    assert p + x + q == p + (x + q);
    LStripPadded(p, x + q);
    assert LStrip(p + x + q) == LStrip(x + q);
    var l := LStrip(x);
    LStripSpec(x);
    if l == [] {
      assert AllSpace(x) by {
        assert x[..|x| - |l|] == x;
      }
      assert AllSpace(x + q);
      LStripAllSpace(x + q);
      assert Strip(p + x + q) == RStrip([]);
    } else {
      LStripAppend(x, q);
      RStripPadded(l, q);
      assert Strip(p + x + q) == RStrip(l + q);
    }
  }

  /** `s.startswith(p)`. */
  predicate StartsWith(s: string, p: string) {
    |p| <= |s| && s[..|p|] == p
  }

  /** Python's `t in s` for strings: `t` occurs in `s` as a contiguous piece. */
  predicate Contains(s: string, t: string)
    decreases |s|
  {
    StartsWith(s, t) || (s != [] && Contains(s[1..], t))
  }

  /** `t` sits in `s` starting at index `i`. */
  predicate OccursAt(s: string, t: string, i: int) {
    0 <= i <= |s| - |t| && s[i..i + |t|] == t
  }

  /** The scan above finds `t` exactly when some slice of `s` equals `t`. */
  lemma {:induction false} ContainsAt(s: string, t: string)
    ensures Contains(s, t) <==> exists i :: OccursAt(s, t, i)
    decreases |s|
  {
    if StartsWith(s, t) {
      assert OccursAt(s, t, 0);
    } else if s != [] {
      ContainsAt(s[1..], t);
      if Contains(s[1..], t) {
        var i :| OccursAt(s[1..], t, i);
        assert s[i + 1..i + 1 + |t|] == s[1..][i..i + |t|];
        assert OccursAt(s, t, i + 1);
      }
      forall i | OccursAt(s, t, i)
        ensures Contains(s[1..], t)
      {
        assert i != 0;
        assert s[1..][i - 1..i - 1 + |t|] == s[i..i + |t|];
        assert OccursAt(s[1..], t, i - 1);
      }
    } else {
      assert forall i :: !OccursAt(s, t, i);
    }
  }

  /** A character that `s` lacks cannot be part of any piece of `s`. */
  lemma ContainsChar(s: string, t: string, k: nat)
    requires Contains(s, t)
    requires k < |t|
    ensures t[k] in s
  {
    ContainsAt(s, t);
    var i :| OccursAt(s, t, i);
    assert s[i + k] == s[i..i + |t|][k];
  }

  /**
   * Left-to-right, non-overlapping replacement of every occurrence of `pat`:
   * both `str.replace(pat, rep)` and `re.sub` with a literal pattern.
   */
  function ReplaceAll(s: string, pat: string, rep: string): (r: string)
    requires pat != []
    decreases |s|
  {
    if s == [] then []
    else if StartsWith(s, pat) then rep + ReplaceAll(s[|pat|..], pat, rep)
    else [s[0]] + ReplaceAll(s[1..], pat, rep)
  }

  /** The number of replacements `ReplaceAll` makes. */
  function Occurrences(s: string, pat: string): (n: nat)
    requires pat != []
    decreases |s|
  {
    if s == [] then 0
    else if StartsWith(s, pat) then 1 + Occurrences(s[|pat|..], pat)
    else Occurrences(s[1..], pat)
  }

  /** A text without the pattern comes back unchanged: nothing is replaced in it. */
  lemma {:induction false} ReplaceAllUnchanged(s: string, pat: string, rep: string)
    requires pat != []
    ensures Occurrences(s, pat) == 0 <==> !Contains(s, pat)
    ensures !Contains(s, pat) ==> ReplaceAll(s, pat, rep) == s
    decreases |s|
  {
    if s != [] {
      if StartsWith(s, pat) {
        ReplaceAllUnchanged(s[|pat|..], pat, rep);
      } else {
        ReplaceAllUnchanged(s[1..], pat, rep);
      }
    }
  }

  /** Every replacement changes the length by the difference between the replacement and the pattern. */
  lemma {:induction false} ReplaceAllLength(s: string, pat: string, rep: string)
    requires pat != []
    ensures |ReplaceAll(s, pat, rep)| == |s| + Occurrences(s, pat) * (|rep| - |pat|)
    decreases |s|
  {
    if s != [] {
      var d := |rep| - |pat|;
      if StartsWith(s, pat) {
        var t := s[|pat|..];
        ReplaceAllLength(t, pat, rep);
        calc {
          |ReplaceAll(s, pat, rep)|;
          |rep| + |ReplaceAll(t, pat, rep)|;
          |rep| + |t| + Occurrences(t, pat) * d;
          { assert (1 + Occurrences(t, pat)) * d == d + Occurrences(t, pat) * d; }
          |s| + Occurrences(s, pat) * d;
        }
      } else {
        ReplaceAllLength(s[1..], pat, rep);
      }
    }
  }

  /** A one-character pattern is replaced piece by piece. */
  lemma {:induction false} ReplaceCharAppend(a: string, b: string, c: char, rep: string)
    ensures ReplaceAll(a + b, [c], rep) == ReplaceAll(a, [c], rep) + ReplaceAll(b, [c], rep)
    decreases |a|
  {
    if a != [] {
      assert (a + b)[1..] == a[1..] + b;
      ReplaceCharAppend(a[1..], b, c, rep);
    } else {
      assert a + b == b;
    }
  }

  /** After replacing a character by text without it, the character is gone. */
  lemma {:induction false} ReplaceCharRemoves(s: string, c: char, rep: string)
    requires c !in rep
    ensures c !in ReplaceAll(s, [c], rep)
    decreases |s|
  {
    if s != [] {
      ReplaceCharRemoves(s[1..], c, rep);
    }
  }

  /** `s.split(sep)` for a one-character separator: always at least one piece. */
  function Split(s: string, sep: char): (parts: seq<string>)
    ensures |parts| >= 1
    decreases |s|
  {
    if s == [] then [[]]
    else if s[0] == sep then [[]] + Split(s[1..], sep)
    else
      var rest := Split(s[1..], sep);
      [[s[0]] + rest[0]] + rest[1..]
  }

  /** `sep.join(parts)`. */
  function Join(parts: seq<string>, sep: char): string
    requires |parts| >= 1
    decreases |parts|
  {
    if |parts| == 1 then parts[0] else parts[0] + [sep] + Join(parts[1..], sep)
  }

  /** Splitting loses nothing: joining the pieces again gives back the text, and no piece holds the separator. */
  lemma {:induction false} SplitJoin(s: string, sep: char)
    ensures Join(Split(s, sep), sep) == s
    ensures forall k :: 0 <= k < |Split(s, sep)| ==> sep !in Split(s, sep)[k]
    decreases |s|
  {
    if s != [] {
      SplitJoin(s[1..], sep);
      var rest := Split(s[1..], sep);
      if s[0] == sep {
        assert Split(s, sep)[1..] == rest;
      } else {
        var parts := Split(s, sep);
        assert parts[1..] == rest[1..];
        if |rest| == 1 {
          assert Join(parts, sep) == [s[0]] + rest[0];
        } else {
          assert Join(parts, sep) == [s[0]] + rest[0] + [sep] + Join(rest[1..], sep);
        }
        assert forall k :: 1 <= k < |parts| ==> parts[k] == rest[k];
      }
    }
  }

  /** Python's `s[:n]`, including the negative `n` that counts from the end. */
  function PyPrefix<T>(s: seq<T>, n: int): (r: seq<T>)
    ensures |r| <= |s| && r == s[..|r|]
    ensures 0 <= n ==> |r| == if n < |s| then n else |s|
    ensures n < 0 ==> |r| == if -n < |s| then |s| + n else 0
  {
    if 0 <= n then (if n < |s| then s[..n] else s)
    else if -n < |s| then s[..|s| + n] else []
  }

  /** Length of the run of `cls` characters `s` begins with. */
  function RunLength(s: string, cls: char -> bool): (k: nat)
    ensures k <= |s|
    ensures forall i :: 0 <= i < k ==> cls(s[i])
    ensures k < |s| ==> !cls(s[k])
    decreases |s|
  {
    if s != [] && cls(s[0]) then 1 + RunLength(s[1..], cls) else 0
  }

  /**
   * `re.sub` of the pattern "`cls`, at least `minRun` times" (greedy) by `rep`:
   * every maximal run of `cls` characters at least `minRun` long becomes `rep`,
   * shorter runs and all other characters stay.
   */
  function SubRuns(s: string, cls: char -> bool, minRun: nat, rep: string): string
    requires minRun >= 1
    decreases |s|
  {
    if s == [] then []
    else if !cls(s[0]) then [s[0]] + SubRuns(s[1..], cls, minRun, rep)
    else
      var k := RunLength(s, cls);
      (if k >= minRun then rep else s[..k]) + SubRuns(s[k..], cls, minRun, rep)
  }

  /** A text with no whitespace at either end is its own `strip`. */
  lemma StripTrimmed(s: string)
    requires s == [] || (!IsSpace(s[0]) && !IsSpace(s[|s| - 1]))
    ensures Strip(s) == s
  {
  }

  /** `strip` is idempotent. */
  lemma StripIdempotent(s: string)
    ensures Strip(Strip(s)) == Strip(s)
  {
    StripShape(s);
    StripTrimmed(Strip(s));
  }

  /** Position of the first `c` in `s`. */
  function IndexOf(s: string, c: char): (i: nat)
    requires c in s
    ensures i < |s| && s[i] == c && c !in s[..i]
  {
    if s[0] == c then 0 else 1 + IndexOf(s[1..], c)
  }

  /** Replacing by non-empty text never empties a non-empty string. */
  lemma ReplaceAllNonEmpty(s: string, pat: string, rep: string)
    requires pat != [] && rep != [] && s != []
    ensures ReplaceAll(s, pat, rep) != []
  {
  }

  /** `a` is `b` with some elements deleted, the others kept in order. */
  predicate IsSubsequence<T(==)>(a: seq<T>, b: seq<T>)
    decreases |b|
  {
    a == [] || (b != [] && if a[0] == b[0] then IsSubsequence(a[1..], b[1..]) else IsSubsequence(a, b[1..]))
  }

  /** A prefix of a subsequence is a subsequence too. */
  lemma {:induction false} SubsequencePrefix<T>(a: seq<T>, b: seq<T>, n: nat)
    requires IsSubsequence(a, b) && n <= |a|
    ensures IsSubsequence(a[..n], b)
    decreases |b|
  {
    if n > 0 && b != [] {
      if a[0] == b[0] {
        SubsequencePrefix(a[1..], b[1..], n - 1);
        assert a[..n][1..] == a[1..][..n - 1];
      } else {
        SubsequencePrefix(a, b[1..], n);
      }
    }
  }

  /** Elements of a subsequence are elements of the sequence. */
  lemma {:induction false} SubsequenceMembers<T>(a: seq<T>, b: seq<T>)
    requires IsSubsequence(a, b)
    ensures forall k :: 0 <= k < |a| ==> a[k] in b
    decreases |b|
  {
    if a != [] {
      if a[0] == b[0] {
        SubsequenceMembers(a[1..], b[1..]);
        assert forall k :: 1 <= k < |a| ==> a[k] == a[1..][k - 1];
      } else {
        SubsequenceMembers(a, b[1..]);
      }
    }
  }
  /** Appending one element to the sequence keeps a subsequence, with or without that element. */
  lemma {:induction false} SubsequenceSnoc<T>(a: seq<T>, b: seq<T>, x: T)
    requires IsSubsequence(a, b)
    ensures IsSubsequence(a, b + [x]) && IsSubsequence(a + [x], b + [x])
    decreases |b|
  {
    if b == [] {
      assert a == [];
      assert a + [x] == b + [x];
      assert ([x] + [])[1..] == [];
    } else {
      assert (b + [x])[0] == b[0] && (b + [x])[1..] == b[1..] + [x];
      if a == [] {
        if x != b[0] {
          SubsequenceSnoc(a, b[1..], x);
          assert a + [x] == [x];
        } else {
          assert ([x])[1..] == [];
        }
      } else if a[0] == b[0] {
        SubsequenceSnoc(a[1..], b[1..], x);
        assert (a + [x])[0] == a[0] && (a + [x])[1..] == a[1..] + [x];
      } else {
        SubsequenceSnoc(a, b[1..], x);
        assert (a + [x])[0] == a[0];
      }
    }
  }

  /** The positions of `s` whose element satisfies `P`. */
  function Positions<T>(s: seq<T>, P: T -> bool): set<int> {
    set k | 0 <= k < |s| && P(s[k])
  }

  /** Appending an element adds its position when it satisfies `P`. */
  lemma PositionsSnoc<T>(s: seq<T>, x: T, P: T -> bool)
    ensures |Positions(s + [x], P)| == |Positions(s, P)| + (if P(x) then 1 else 0)
  {
    var a := Positions(s, P);
    var b := Positions(s + [x], P);
    assert forall k :: 0 <= k < |s| ==> (s + [x])[k] == s[k];
    if P(x) {
      assert b == a + {|s|};
      assert |s| !in a;
    } else {
      assert b == a;
    }
  }

  /** Prepending an element adds one position exactly when it satisfies `P`. */
  lemma {:induction false} PositionsCons<T>(x: T, s: seq<T>, P: T -> bool)
    ensures |Positions([x] + s, P)| == (if P(x) then 1 else 0) + |Positions(s, P)|
    decreases |s|
  {
    if s == [] {
      assert [x] + s == [x];
      assert Positions([x], P) == if P(x) then {0} else {};
      assert Positions(s, P) == {};
    } else {
      var init := s[..|s| - 1];
      var y := s[|s| - 1];
      PositionsCons(x, init, P);
      assert [x] + s == ([x] + init) + [y];
      assert s == init + [y];
      PositionsSnoc([x] + init, y, P);
      PositionsSnoc(init, y, P);
    }
  }

  /** Occurrences of a pattern cannot begin in a prefix that lacks the pattern's first character. */
  lemma {:induction false} ReplaceAllSkips(a: string, t: string, pat: string, rep: string)
    requires pat != [] && pat[0] !in a
    ensures ReplaceAll(a + t, pat, rep) == a + ReplaceAll(t, pat, rep)
    decreases |a|
  {
    if a == [] {
      assert a + t == t;
    } else {
      assert (a + t)[0] == a[0];
      assert (a + t)[1..] == a[1..] + t;
      ReplaceAllSkips(a[1..], t, pat, rep);
    }
  }

  /** A pattern whose first character occurs nowhere else is replaced exactly once. */
  lemma ReplaceOnce(a: string, pat: string, b: string, rep: string)
    requires pat != [] && pat[0] !in a && pat[0] !in b
    ensures ReplaceAll(a + pat + b, pat, rep) == a + rep + b
  {
    assert a + pat + b == a + (pat + b);
    ReplaceAllSkips(a, pat + b, pat, rep);
    assert StartsWith(pat + b, pat);
    assert (pat + b)[|pat|..] == b + [];
    ReplaceAllSkips(b, [], pat, rep);
    assert b + [] == b;
  }

  /** `s.split(c, 1)` when `c` occurs in `s`: the text before the first `c` and the text after it. */
  function SplitFirst(s: string, c: char): (r: (string, string))
    requires c in s
    ensures s == r.0 + [c] + r.1 && c !in r.0
  {
    var i := IndexOf(s, c);
    assert s == s[..i] + [c] + s[i + 1..];
    (s[..i], s[i + 1..])
  }
}
