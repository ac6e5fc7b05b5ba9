/** The behaviour of the few java.lang.String, StringBuffer and Character
    operations that the file-name functions are built from. A Java string is a
    sequence of UTF-16 code units; here it is a `string`, a sequence of Unicode
    scalar values. The two agree on every character of the Basic Multilingual
    Plane; a character beyond it is two units in Java and one `char` here. */
module JavaString {

  /** Is `t` found at some position of `s`? (`s.contains(t)`, `s.indexOf(t) >= 0`) */
  predicate Occurs(t: string, s: string) {
    exists i :: 0 <= i <= |s| && t <= s[i..]
  }

  /** `s.indexOf(c)`: the first position of `c` in `s`, or -1 when there is none. */
  function IndexOf(s: string, c: char): (r: int)
    ensures r == -1 <==> c !in s
    ensures r != -1 ==> 0 <= r < |s| && s[r] == c && forall k :: 0 <= k < r ==> s[k] != c
  {
    if s == [] then -1
    else if s[0] == c then 0
    else
      var k := IndexOf(s[1..], c);
      if k == -1 then -1 else k + 1
  }

  /** `s.lastIndexOf(c)`: the last position of `c` in `s`, or -1 when there is none. */
  function LastIndexOf(s: string, c: char): (r: int)
    ensures r == -1 <==> c !in s
    ensures r != -1 ==> 0 <= r < |s| && s[r] == c && forall k :: r < k < |s| ==> s[k] != c
  {
    if s == [] then -1
    else if s[|s| - 1] == c then |s| - 1
    else
      var k := LastIndexOf(s[..|s| - 1], c);
      if k == -1 then
        assert s == s[..|s| - 1] + [s[|s| - 1]];
        k
      else k
  }

  /** `new StringBuffer(s).reverse().toString()`. Java keeps each surrogate
      pair together when it reverses; a `char` here is a whole scalar value,
      so plain reversal does the same. */
  function Reverse(s: string): (r: string)
    ensures |r| == |s|
    ensures forall i :: 0 <= i < |s| ==> r[i] == s[|s| - 1 - i]
  {
    seq(|s|, i requires 0 <= i < |s| => s[|s| - 1 - i])
  }

  /** Reversing twice gives the string back. */
  lemma ReverseInvolution(s: string)
    ensures Reverse(Reverse(s)) == s
  {
    var r := Reverse(Reverse(s));
    forall i | 0 <= i < |s| ensures r[i] == s[i] {
      assert r[i] == Reverse(s)[|s| - 1 - i];
    }
  }

  /** Reversing a concatenation reverses each part and swaps them. */
  lemma ReverseAppend(a: string, b: string)
    ensures Reverse(a + b) == Reverse(b) + Reverse(a)
  {
    var s, r := a + b, Reverse(b) + Reverse(a);
    forall i | 0 <= i < |s| ensures Reverse(s)[i] == r[i] {
      if i < |b| {
        assert r[i] == b[|b| - 1 - i];
      } else {
        assert r[i] == a[|s| - 1 - i];
      }
    }
  }

  /** Reversing introduces no character that was not there. */
  lemma ReverseKeepsOut(s: string, c: char)
    requires c !in s
    ensures c !in Reverse(s)
  {
    var r := Reverse(s);
    forall i | 0 <= i < |r| ensures r[i] != c {
      assert r[i] == s[|s| - 1 - i];
    }
  }

  // ---------------------------------------------------------------------
  // String.replace(CharSequence target, CharSequence replacement)
  // ---------------------------------------------------------------------

  /** `s.replace(target, rep)`: every occurrence of `target`, found scanning
      left to right and without overlap, is replaced by `rep`. An empty
      `target` matches before every character and at the end. */
  function Replace(s: string, target: string, rep: string): (r: string)
    ensures target == [] ==> |r| == |s| + (|s| + 1) * |rep|
    ensures target != [] ==> |r| + MatchCount(s, target) * |target| == |s| + MatchCount(s, target) * |rep|
  {
    if target == [] then InsertEverywhere(s, rep) else ReplaceMatches(s, target, rep)
  }

  /** The empty-target case of `String.replace`: `rep` before every character and at the end. */
  function InsertEverywhere(s: string, rep: string): (r: string)
    ensures |r| == |s| + (|s| + 1) * |rep|
    ensures rep == [] ==> r == s
  {
    if s == [] then rep else rep + [s[0]] + InsertEverywhere(s[1..], rep)
  }

  /** The number of occurrences of the non-empty `target` that a left-to-right,
      non-overlapping scan of `s` finds. */
  function MatchCount(s: string, target: string): (n: nat)
    requires target != []
    ensures n * |target| <= |s|
    decreases |s|
  {
    if |s| < |target| then 0
    else if target <= s then 1 + MatchCount(s[|target|..], target)
    else MatchCount(s[1..], target)
  }

  /** The non-empty-target case of `String.replace`. */
  function ReplaceMatches(s: string, target: string, rep: string): (r: string)
    requires target != []
    ensures |r| + MatchCount(s, target) * |target| == |s| + MatchCount(s, target) * |rep|
    decreases |s|
  {
    if |s| < |target| then s
    else if target <= s then
      var m := MatchCount(s[|target|..], target);
      assert (1 + m) * |target| == |target| + m * |target|;
      assert (1 + m) * |rep| == |rep| + m * |rep|;
      rep + ReplaceMatches(s[|target|..], target, rep)
    else [s[0]] + ReplaceMatches(s[1..], target, rep)
  }

  /** Where `target` occurs nowhere in `s`, `s.replace(target, rep)` is `s`. */
  lemma {:induction false} ReplaceAbsent(s: string, target: string, rep: string)
    requires target != [] && !Occurs(target, s)
    ensures Replace(s, target, rep) == s
    decreases |s|
  {
    if |s| >= |target| {
      assert s[0..] == s;
      assert !(target <= s);
      forall i | 0 <= i <= |s[1..]| ensures !(target <= s[1..][i..]) {
        assert s[1..][i..] == s[i + 1..];
      }
      ReplaceAbsent(s[1..], target, rep);
    }
  }

  /** Removing every occurrence of a single character shortens `s` by the
      number of times that character appears in it. */
  lemma {:induction false} RemoveCharCount(s: string, c: char)
    ensures |Replace(s, [c], "")| == |s| - multiset(s)[c]
    decreases |s|
  {
    if s != [] {
      RemoveCharCount(s[1..], c);
      assert s == [s[0]] + s[1..];
      assert multiset(s) == multiset{s[0]} + multiset(s[1..]);
      assert [c] <= s <==> s[0] == c;
      assert [c] <= s ==> s[1..] == s[|[c]|..];
    }
  }

  /** A single character that does not appear in `s` is not found in it. */
  lemma CharNotOccurs(c: char, s: string)
    requires c !in s
    ensures !Occurs([c], s)
  {
    forall i | 0 <= i <= |s| ensures !([c] <= s[i..]) {
      if i < |s| {
        assert s[i..][0] == s[i];
      }
    }
  }

  /** Replacing a single character works one character at a time. */
  lemma ReplaceCharCons(x: char, s: string, c: char, rep: string)
    ensures Replace([x] + s, [c], rep) == (if x == c then rep else [x]) + Replace(s, [c], rep)
  {
    var t := [x] + s;
    assert t[0] == x && t[..1] == [x] && t[1..] == s;
    assert [c] <= t <==> x == c;
  }

  /** Replacing a single character distributes over concatenation. */
  lemma {:induction false} ReplaceCharAppend(a: string, b: string, c: char, rep: string)
    ensures Replace(a + b, [c], rep) == Replace(a, [c], rep) + Replace(b, [c], rep)
    decreases |a|
  {
    if a == [] {
      assert a + b == b;
    } else {
      var x, tail := a[0], a[1..];
      var h := if x == c then rep else [x];
      assert a + b == [x] + (tail + b);
      assert a == [x] + tail;
      ReplaceCharCons(x, tail + b, c, rep);
      ReplaceCharCons(x, tail, c, rep);
      ReplaceCharAppend(tail, b, c, rep);
      calc {
        Replace(a + b, [c], rep);
        h + Replace(tail + b, [c], rep);
        h + (Replace(tail, [c], rep) + Replace(b, [c], rep));
        (h + Replace(tail, [c], rep)) + Replace(b, [c], rep);
        Replace(a, [c], rep) + Replace(b, [c], rep);
      }
    }
  }

  /** A string without the character is left as it is. */
  lemma {:induction false} ReplaceCharAbsent(s: string, c: char, rep: string)
    requires c !in s
    ensures Replace(s, [c], rep) == s
    decreases |s|
  {
    if s != [] {
      assert s == [s[0]] + s[1..];
      ReplaceCharCons(s[0], s[1..], c, rep);
      ReplaceCharAbsent(s[1..], c, rep);
    }
  }

  /** The character alone becomes the replacement. */
  lemma ReplaceCharSelf(c: char, rep: string)
    ensures Replace([c], [c], rep) == rep
  {
    ReplaceCharCons(c, [], c, rep);
    assert [c] + [] == [c];
    assert rep + [] == rep;
  }

  // ---------------------------------------------------------------------
  // String.trim()
  // ---------------------------------------------------------------------

  /** Every character of `s` is one that `trim` strips (one up to U+0020). */
  predicate AllBlank(s: string) {
    forall i :: 0 <= i < |s| ==> s[i] <= ' '
  }

  /** `s` starts and ends with a character that `trim` keeps. */
  predicate IsTrimmed(s: string) {
    s == [] || (s[0] > ' ' && s[|s| - 1] > ' ')
  }

  /** `s` without its leading characters up to U+0020. */
  function TrimStart(s: string): (r: string)
    ensures |r| <= |s|
    ensures r == [] || r[0] > ' '
  {
    if s != [] && s[0] <= ' ' then TrimStart(s[1..]) else s
  }

  /** `s` without its trailing characters up to U+0020. */
  function TrimEnd(s: string): (r: string)
    ensures |r| <= |s|
    ensures r != [] ==> r[0] == s[0]
    ensures r == [] || r[|r| - 1] > ' '
  {
    if s != [] && s[|s| - 1] <= ' ' then TrimEnd(s[..|s| - 1]) else s
  }

  /** `s.trim()`: `s` without leading and trailing characters up to U+0020. */
  function Trim(s: string): (r: string)
    ensures IsTrimmed(r)
  {
    TrimEnd(TrimStart(s))
  }

  /** `trim` introduces no character that was not there. */
  lemma TrimKeepsOut(s: string, c: char)
    requires c !in s
    ensures c !in Trim(s)
  {
    TrimStartKeepsOut(s, c);
    TrimEndKeepsOut(TrimStart(s), c);
  }

  lemma {:induction false} TrimStartKeepsOut(s: string, c: char)
    requires c !in s
    ensures c !in TrimStart(s)
    decreases |s|
  {
    if s != [] && s[0] <= ' ' {
      assert c !in s[1..] by {
        forall k | 0 <= k < |s[1..]| ensures s[1..][k] != c {
          assert s[1..][k] == s[k + 1];
        }
      }
      TrimStartKeepsOut(s[1..], c);
    }
  }

  lemma {:induction false} TrimEndKeepsOut(s: string, c: char)
    requires c !in s
    ensures c !in TrimEnd(s)
    decreases |s|
  {
    if s != [] && s[|s| - 1] <= ' ' {
      var t := s[..|s| - 1];
      assert c !in t by {
        forall k | 0 <= k < |t| ensures t[k] != c {
          assert t[k] == s[k];
        }
      }
      TrimEndKeepsOut(t, c);
    }
  }

  lemma {:induction false} TrimStartPadded(a: string, u: string)
    requires AllBlank(a) && (u == [] || u[0] > ' ')
    ensures TrimStart(a + u) == u
    decreases |a|
  {
    if a != [] {
      assert (a + u)[1..] == a[1..] + u;
      TrimStartPadded(a[1..], u);
    } else {
      assert a + u == u;
    }
  }

  lemma {:induction false} TrimEndPadded(u: string, b: string)
    requires AllBlank(b) && (u == [] || u[|u| - 1] > ' ')
    ensures TrimEnd(u + b) == u
    decreases |b|
  {
    if b != [] {
      assert (u + b)[..|u + b| - 1] == u + b[..|b| - 1];
      TrimEndPadded(u, b[..|b| - 1]);
    } else {
      assert u + b == u;
    }
  }

  /** Trimming a trimmed string surrounded by blanks gives the string back. */
  lemma TrimPadded(a: string, t: string, b: string)
    requires AllBlank(a) && AllBlank(b) && IsTrimmed(t)
    ensures Trim(a + t + b) == t
  {
    if t == [] {
      assert a + t + b == a + b;
      assert AllBlank(a + b);
      TrimStartPadded(a + b, []);
      assert a + b + [] == a + b;
    } else {
      assert a + t + b == a + (t + b);
      TrimStartPadded(a, t + b);
      TrimEndPadded(t, b);
    }
  }

  // ---------------------------------------------------------------------
  // Character case, restricted to the ASCII letters
  // ---------------------------------------------------------------------

  /** `Character.isUpperCase(c)` on ASCII. */
  predicate IsUpperCase(c: char) { 'A' <= c <= 'Z' }

  /** `Character.isLowerCase(c)` on ASCII. */
  predicate IsLowerCase(c: char) { 'a' <= c <= 'z' }

  /** `Character.toLowerCase(c)` on ASCII; every other character is unchanged. */
  function ToLowerCase(c: char): (r: char)
    ensures IsUpperCase(c) ==> IsLowerCase(r) && r as int - 'a' as int == c as int - 'A' as int
    ensures !IsUpperCase(c) ==> r == c
  {
    if IsUpperCase(c) then (c as int + 32) as char else c
  }

  /** `Character.toUpperCase(c)` on ASCII; every other character is unchanged. */
  function ToUpperCase(c: char): (r: char)
    ensures IsLowerCase(c) ==> IsUpperCase(r) && r as int - 'A' as int == c as int - 'a' as int
    ensures !IsLowerCase(c) ==> r == c
  {
    if IsLowerCase(c) then (c as int - 32) as char else c
  }

  /** `s.toLowerCase()`, one character at a time. */
  function StringToLowerCase(s: string): (r: string)
    ensures |r| == |s| && forall i :: 0 <= i < |s| ==> r[i] == ToLowerCase(s[i])
  {
    seq(|s|, i requires 0 <= i < |s| => ToLowerCase(s[i]))
  }

  /** `s.toUpperCase()`, one character at a time. */
  function StringToUpperCase(s: string): (r: string)
    ensures |r| == |s| && forall i :: 0 <= i < |s| ==> r[i] == ToUpperCase(s[i])
  {
    seq(|s|, i requires 0 <= i < |s| => ToUpperCase(s[i]))
  }
}
