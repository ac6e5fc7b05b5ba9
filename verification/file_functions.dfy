/** The file-name transformations of the renaming tool (class
    `usbac.namely.FileFunctions`). A file is its parent path and its name;
    every operation leaves the parent alone and computes a new name. */
module FileFunctions {
  import opened JavaString

  /** A `java.io.File`, seen as the pair of its parent path and its name. */
  datatype File = File(parent: string, name: string)

  /** What a transformation gives back: the renamed file, or the
      `StringIndexOutOfBoundsException` that `String.substring` throws when its
      bounds are out of order. */
  datatype Outcome = Ok(file: File) | IndexOutOfBounds

  // ---------------------------------------------------------------------
  // numberOfMatches
  // ---------------------------------------------------------------------

  /** How many characters disappear from the name when every occurrence of
      `str` is removed. This is not divided by `|str|`, so for a string longer
      than one character it is not the number of occurrences. */
  function NumberOfMatches(f: File, str: string): (n: int)
    ensures 0 <= n <= |f.name|
    ensures str == [] ==> n == 0
  {
    var removed := JavaString.Replace(f.name, str, "");
    |f.name| - |removed|
  }

  /** numberOfMatches is the length of the string looked for times the number
      of occurrences a left-to-right scan removes. */
  lemma NumberOfMatchesIsRemovedLength(f: File, str: string)
    requires str != []
    ensures NumberOfMatches(f, str) == MatchCount(f.name, str) * |str|
  {
  }

  /** For a single character, numberOfMatches is the number of times it occurs. */
  lemma NumberOfMatchesOfChar(f: File, c: char)
    ensures NumberOfMatches(f, [c]) == multiset(f.name)[c]
  {
    RemoveCharCount(f.name, c);
  }

  /** Overlapping occurrences are not all removed, and the removed length is
      not divided by the length of the string looked for. */
  lemma NumberOfMatchesOverlapping(p: string)
    ensures NumberOfMatches(File(p, "aaa"), "aa") == 2
  {
    assert "aa" <= "aaa";
    assert "aaa"[2..] == "a";
  }

  // ---------------------------------------------------------------------
  // The extension rule: getExtension, hasExtension, getNameNoExtension,
  // getLengthNoExtension
  // ---------------------------------------------------------------------

  /** The shape of a real extension: a dot followed by no other dot. */
  predicate IsExtension(ext: string) {
    |ext| > 0 && ext[0] == '.' && forall k :: 0 < k < |ext| ==> ext[k] != '.'
  }

  /** The extension of a name: the suffix from its last dot on, or the whole
      name when there is no dot at all. */
  function GetExtension(fileName: string): (ext: string)
    ensures '.' !in fileName ==> ext == fileName
    ensures '.' in fileName ==>
      |ext| <= |fileName| && ext == fileName[|fileName| - |ext|..] && IsExtension(ext)
  {
    if '.' !in fileName then fileName
    else fileName[LastIndexOf(fileName, '.')..]
  }

  /** A name that ends in a dot-led suffix with no other dot has that suffix as
      its extension, whatever comes before it. */
  lemma ExtensionOfSuffix(prefix: string, ext: string)
    requires IsExtension(ext)
    ensures GetExtension(prefix + ext) == ext
  {
    var s := prefix + ext;
    assert s[|prefix|] == '.';
    assert forall j :: |prefix| < j < |s| ==> s[j] == ext[j - |prefix|];
    var k := LastIndexOf(s, '.');
    assert k == |prefix|;
    assert s[k..] == ext;
  }

  /** Whether the extension is shorter than the name. */
  function HasExtension(f: File): bool {
    |f.name| != |GetExtension(f.name)|
  }

  /** A file has an extension exactly when its name has a dot after the first
      character: a name without a dot has none, and neither has `.bashrc`. */
  lemma HasExtensionIff(f: File)
    ensures HasExtension(f) <==> exists i :: 0 < i < |f.name| && f.name[i] == '.'
  {
    var ext := GetExtension(f.name);
    if HasExtension(f) {
      var i := |f.name| - |ext|;
      assert f.name[i] == ext[0];
    }
  }

  /** The name without its extension; the whole name when the file has none. */
  function GetNameNoExtension(f: File): (base: string)
    ensures HasExtension(f) ==> base == f.name[..|f.name| - |GetExtension(f.name)|]
    ensures !HasExtension(f) ==> base == f.name
  {
    var name := f.name;
    var extension := GetExtension(name);
    if |name| > |extension| then name[..|name| - |extension|] else name
  }

  /** The position of the extension's dot when there is an extension, 0 otherwise. */
  function GetLengthNoExtension(f: File): (n: int)
    ensures HasExtension(f) ==>
      n == |GetNameNoExtension(f)| && 0 < n < |f.name| &&
      f.name[n] == '.' && forall k :: n < k < |f.name| ==> f.name[k] != '.'
    ensures !HasExtension(f) ==> n == 0
  {
    var ext := GetExtension(f.name);
    var n := |f.name| - |ext|;
    assert HasExtension(f) ==> forall k :: n <= k < |f.name| ==> f.name[k] == ext[k - n];
    n
  }

  /** The extension that changeOrder, replace and cases put back: the
      extension, or nothing when the file has none. */
  function KeptExtension(f: File): string {
    if HasExtension(f) then GetExtension(f.name) else ""
  }

  /** The `length` that changeOrder and cases work up to: the length of the
      name without its extension, or of the whole name when there is none. It
      splits the name into the base name and the kept extension. */
  function WorkingLength(f: File): (n: nat)
    ensures n <= |f.name|
    ensures GetNameNoExtension(f) == f.name[..n] && KeptExtension(f) == f.name[n..]
  {
    if HasExtension(f) then GetLengthNoExtension(f) else |f.name|
  }

  /** The base name followed by the kept extension is the name. */
  lemma Rejoin(f: File)
    ensures GetNameNoExtension(f) + KeptExtension(f) == f.name
  {
    var n := WorkingLength(f);
    assert f.name[..n] + f.name[n..] == f.name;
  }

  /** How a name splits: a non-empty base name and a real extension, or the
      whole name and nothing. */
  lemma Split(f: File)
    ensures HasExtension(f) ==> 0 < WorkingLength(f) && IsExtension(KeptExtension(f))
    ensures !HasExtension(f) ==> WorkingLength(f) == |f.name| && KeptExtension(f) == []
    ensures forall k :: 0 <= k < |KeptExtension(f)| ==> KeptExtension(f)[k] == f.name[WorkingLength(f) + k]
  {
    var n := WorkingLength(f);
    forall k | 0 <= k < |KeptExtension(f)| ensures KeptExtension(f)[k] == f.name[n + k] {
      assert f.name[n + k] == (f.name[..n] + KeptExtension(f))[n + k];
    }
  }

  /** A non-empty head followed by a real extension splits there. */
  lemma SplitOfExtended(p: string, head: string, ext: string)
    requires |head| > 0 && IsExtension(ext)
    ensures var f := File(p, head + ext);
      HasExtension(f) && WorkingLength(f) == |head| && KeptExtension(f) == ext
  {
    ExtensionOfSuffix(head, ext);
  }

  /** A name without a dot is all base name. */
  lemma SplitOfDotless(f: File)
    requires '.' !in f.name
    ensures !HasExtension(f) && WorkingLength(f) == |f.name| && KeptExtension(f) == []
  {
  }

  /** Two names with their dots at the same places both have an extension or
      both have none. */
  lemma SameDotsSameExtension(f: File, g: File)
    requires |f.name| == |g.name|
    requires forall i :: 0 <= i < |f.name| ==> (f.name[i] == '.' <==> g.name[i] == '.')
    ensures HasExtension(f) == HasExtension(g)
  {
    HasExtensionIff(f);
    HasExtensionIff(g);
    if HasExtension(f) {
      var i :| 0 < i < |f.name| && f.name[i] == '.';
      assert g.name[i] == '.';
    }
  }

  /** Two names with their dots at the same places split the same way. */
  lemma SameDotsSameSplit(f: File, g: File)
    requires |f.name| == |g.name|
    requires forall i :: 0 <= i < |f.name| ==> (f.name[i] == '.' <==> g.name[i] == '.')
    ensures HasExtension(f) == HasExtension(g)
    ensures WorkingLength(f) == WorkingLength(g)
  {
    SameDotsSameExtension(f, g);
    if HasExtension(f) {
      LastDotUnique(f.name, g.name, GetLengthNoExtension(f), GetLengthNoExtension(g));
    }
  }

  /** Two strings with their dots at the same places have their last dot at
      the same place. */
  lemma LastDotUnique(s: string, t: string, m: int, n: int)
    requires |s| == |t|
    requires forall i :: 0 <= i < |s| ==> (s[i] == '.' <==> t[i] == '.')
    requires 0 <= m < |s| && s[m] == '.' && forall k :: m < k < |s| ==> s[k] != '.'
    requires 0 <= n < |t| && t[n] == '.' && forall k :: n < k < |t| ==> t[k] != '.'
    ensures m == n
  {
    assert t[m] == '.' && s[n] == '.';
  }

  // ---------------------------------------------------------------------
  // inverse
  // ---------------------------------------------------------------------

  /** Reverses the base name and keeps the extension; a file without an
      extension has its whole name reversed. */
  function Inverse(f: File): (r: File)
    ensures r.parent == f.parent && |r.name| == |f.name|
  {
    var extension := GetExtension(f.name);
    var invertedName := Reverse(GetNameNoExtension(f));
    var extension := if !HasExtension(f) then "" else extension;
    File(f.parent, invertedName + extension)
  }

  /** The base name is read backwards and each character of the extension
      stays where it was. */
  lemma InverseMaps(f: File)
    ensures var r := Inverse(f);
      (forall i :: 0 <= i < WorkingLength(f) ==> r.name[i] == f.name[WorkingLength(f) - 1 - i]) &&
      forall i :: WorkingLength(f) <= i < |f.name| ==> r.name[i] == f.name[i]
  {
    Split(f);
    ReversedThenKept(f.name, WorkingLength(f), KeptExtension(f), Inverse(f).name);
  }

  /** A reversed prefix followed by the rest of a name reads the prefix
      backwards and keeps the other characters. */
  lemma ReversedThenKept(s: string, n: nat, rest: string, r: string)
    requires n <= |s| && |rest| == |s| - n
    requires forall k :: 0 <= k < |rest| ==> rest[k] == s[n + k]
    requires r == Reverse(s[..n]) + rest
    ensures forall i :: 0 <= i < n ==> r[i] == s[n - 1 - i]
    ensures forall i :: n <= i < |s| ==> r[i] == s[i]
  {
    forall i | n <= i < |s| ensures r[i] == s[i] {
      assert r[i] == rest[i - n];
    }
  }

  /** Inverting twice gives the file back, when the name has an extension or
      no dot at all. */
  lemma InverseInvolution(f: File)
    requires HasExtension(f) || '.' !in f.name
    ensures Inverse(Inverse(f)) == f
  {
    var p := f.parent;
    if HasExtension(f) {
      var base, ext := GetNameNoExtension(f), KeptExtension(f);
      assert |base| > 0 && IsExtension(ext) by {
        Split(f);
      }
      Rejoin(f);
      assert f == File(p, base + ext);
      InverseOfExtended(p, base, ext);
      InverseOfExtended(p, Reverse(base), ext);
      ReverseInvolution(base);
    } else {
      var g := File(p, Reverse(f.name));
      InverseOfDotless(f);
      assert !HasExtension(g) by {
        ReverseKeepsOut(f.name, '.');
        SplitOfDotless(g);
      }
      InverseOfDotless(g);
      ReverseInvolution(f.name);
    }
  }

  /** A file without an extension has its whole name reversed. */
  lemma InverseOfDotless(f: File)
    requires !HasExtension(f)
    ensures Inverse(f) == File(f.parent, Reverse(f.name))
  {
  }

  /** A non-empty head and a real extension: the head is reversed and the
      extension kept. */
  lemma InverseOfExtended(p: string, head: string, ext: string)
    requires |head| > 0 && IsExtension(ext)
    ensures Inverse(File(p, head + ext)) == File(p, Reverse(head) + ext)
  {
    SplitOfExtended(p, head, ext);
  }

  /** A name whose only dot is its first character has no extension. */
  lemma DotLedHasNoExtension(f: File, rest: string)
    requires f.name == "." + rest && '.' !in rest
    ensures !HasExtension(f)
  {
    assert IsExtension(f.name) by {
      forall k | 0 < k < |f.name| ensures f.name[k] != '.' {
        assert f.name[k] == rest[k - 1];
      }
    }
    ExtensionOfSuffix([], f.name);
    assert [] + f.name == f.name;
  }

  /** A name whose only dot leads it, such as `.ab`, has no extension, so it
      is reversed whole; the reversed name `ba.` then has an extension, and
      inverting it gives `ab.`, not the name started from. */
  lemma InverseOfDotLedName(p: string, rest: string)
    requires rest != [] && '.' !in rest
    ensures Inverse(File(p, "." + rest)) == File(p, Reverse(rest) + ".")
    ensures Inverse(File(p, Reverse(rest) + ".")) == File(p, rest + ".")
    ensures Inverse(Inverse(File(p, "." + rest))) != File(p, "." + rest)
  {
    var f, g := File(p, "." + rest), File(p, Reverse(rest) + ".");
    assert Inverse(f) == g by {
      DotLedHasNoExtension(f, rest);
      InverseOfDotless(f);
      ReverseAppend(".", rest);
      assert Reverse(".") == ".";
    }
    assert Inverse(g) == File(p, rest + ".") by {
      InverseOfExtended(p, Reverse(rest), ".");
      ReverseInvolution(rest);
    }
    assert (rest + ".")[0] != f.name[0];
  }

  // ---------------------------------------------------------------------
  // changeOrder
  // ---------------------------------------------------------------------

  function Space(spacing: bool): string {
    if spacing then " " else ""
  }

  /** The name changeOrder builds: the first part, the separator with a space
      on each side when `spacing`, the second part and the extension. */
  function Joined(first: string, separator: char, spacing: bool, second: string, ext: string): string {
    first + Space(spacing) + [separator] + Space(spacing) + second + ext
  }

  /** Swaps the two parts of the name around the one occurrence of
      `separator`, trimming each part, and puts the extension back. The name is
      left unchanged when the separator is the dot or does not occur exactly
      once in the whole name, extension included. */
  function ChangeOrder(f: File, separator: char, spacing: bool): (r: Outcome)
    ensures r.Ok? ==> r.file.parent == f.parent
  {
    var totalSeparators := NumberOfMatches(f, [separator]);
    if totalSeparators != 1 || separator == '.' then Ok(File(f.parent, f.name))
    else
      var extension := KeptExtension(f);
      var length := WorkingLength(f);
      var separatorIndex := IndexOf(f.name, separator);
      if separatorIndex < 0 || separatorIndex + 1 > length then IndexOutOfBounds
      else
        var partOne := Trim(f.name[..separatorIndex]);
        var partTwo := Trim(f.name[separatorIndex + 1..length]);
        Ok(File(f.parent, Joined(partTwo, separator, spacing, partOne, extension)))
  }

  /** The dot as separator, or a separator that does not occur exactly once,
      leaves the file as it is. */
  lemma ChangeOrderUnchanged(f: File, separator: char, spacing: bool)
    requires separator == '.' || multiset(f.name)[separator] != 1
    ensures ChangeOrder(f, separator, spacing) == Ok(f)
  {
    NumberOfMatchesOfChar(f, separator);
  }

  lemma TwoOccurrences(s: string, c: char, i: int, j: int)
    requires 0 <= i < j < |s| && s[i] == c && s[j] == c
    ensures multiset(s)[c] >= 2
  {
    assert s == s[..i] + [s[i]] + s[i + 1..j] + [s[j]] + s[j + 1..];
  }

  /** `c` is at position `i` of `s` and nowhere else. */
  predicate OnlyAt(s: string, c: char, i: int) {
    0 <= i < |s| && s[i] == c && forall k :: 0 <= k < |s| && k != i ==> s[k] != c
  }

  /** A character found at one position and nowhere else occurs once. */
  lemma SingleOccurrence(s: string, c: char, i: int)
    requires OnlyAt(s, c, i)
    ensures multiset(s)[c] == 1
  {
    assert s == s[..i] + [c] + s[i + 1..];
    assert c !in s[..i] && c !in s[i + 1..];
    assert multiset(s) == multiset(s[..i]) + multiset{c} + multiset(s[i + 1..]);
  }

  /** A character that occurs once in `s` is at one position only. */
  lemma OnlyOccurrence(s: string, c: char, i: int, j: int)
    requires multiset(s)[c] == 1
    requires 0 <= i < |s| && s[i] == c && 0 <= j < |s| && s[j] == c
    ensures i == j
  {
    if i < j {
      TwoOccurrences(s, c, i, j);
      assert false;
    } else if j < i {
      TwoOccurrences(s, c, j, i);
      assert false;
    }
  }

  /** With `c` only at `i` in `s`, `c` lies in the suffix from `n` on
      exactly when `i` does. */
  lemma SuffixHolds(s: string, c: char, i: int, n: int, ext: string)
    requires OnlyAt(s, c, i)
    requires 0 <= n <= |s| && |ext| == |s| - n
    requires forall k :: 0 <= k < |ext| ==> ext[k] == s[n + k]
    ensures i < n <==> c !in ext
  {
    if i >= n {
      assert ext[i - n] == c;
    }
    if c in ext {
      var j :| 0 <= j < |ext| && ext[j] == c;
      assert s[n + j] == c;
    }
  }

  /** The one separator lies before the extension unless the extension holds it. */
  lemma SeparatorPosition(f: File, separator: char, i: int)
    requires OnlyAt(f.name, separator, i)
    ensures IndexOf(f.name, separator) == i
    ensures i < WorkingLength(f) <==> separator !in KeptExtension(f)
  {
    assert IndexOf(f.name, separator) == i by {
      assert f.name[i] == separator;
    }
    var n, ext := WorkingLength(f), KeptExtension(f);
    SuffixHolds(f.name, separator, i, n, ext);
  }

  /** changeOrder throws exactly when the separator that occurs once lies in
      the extension: `substring(separatorIndex + 1, length)` then has its
      start past its end. */
  lemma ChangeOrderFails(f: File, separator: char, spacing: bool)
    ensures ChangeOrder(f, separator, spacing) == IndexOutOfBounds <==>
      separator != '.' && multiset(f.name)[separator] == 1 &&
      separator in KeptExtension(f)
  {
    NumberOfMatchesOfChar(f, separator);
    if separator != '.' && multiset(f.name)[separator] == 1 {
      var i := IndexOf(f.name, separator);
      OnceOnlyAt(f.name, separator, i);
      SeparatorPosition(f, separator, i);
    }
  }

  /** A character that occurs once is only where it is found. */
  lemma OnceOnlyAt(s: string, c: char, i: int)
    requires multiset(s)[c] == 1 && 0 <= i < |s| && s[i] == c
    ensures OnlyAt(s, c, i)
  {
    forall k | 0 <= k < |s| && s[k] == c ensures k == i {
      OnlyOccurrence(s, c, i, k);
    }
  }

  /** When the separator occurs once, outside the extension, at `i`, the
      result is the trimmed part after it, the separator, the trimmed part
      before it, and the kept extension. */
  lemma ChangeOrderSwaps(f: File, separator: char, spacing: bool, i: int)
    requires separator != '.' && OnlyAt(f.name, separator, i) && i < WorkingLength(f)
    ensures ChangeOrder(f, separator, spacing) == Ok(File(f.parent,
      Joined(Trim(f.name[i + 1..WorkingLength(f)]), separator, spacing, Trim(f.name[..i]), KeptExtension(f))))
  {
    SeparatorFound(f, separator, i);
  }

  /** A separator only at `i` is counted once and found at `i`. */
  lemma SeparatorFound(f: File, separator: char, i: int)
    requires OnlyAt(f.name, separator, i)
    ensures NumberOfMatches(f, [separator]) == 1 && IndexOf(f.name, separator) == i
  {
    SingleOccurrence(f.name, separator, i);
    NumberOfMatchesOfChar(f, separator);
  }

  /** A separator only at `i`, before the extension, is in neither trimmed
      part nor in the extension. */
  lemma SeparatorOnlyAt(f: File, separator: char, i: int)
    requires OnlyAt(f.name, separator, i) && i < WorkingLength(f)
    ensures separator !in Trim(f.name[..i])
    ensures separator !in Trim(f.name[i + 1..WorkingLength(f)])
    ensures separator !in KeptExtension(f)
  {
    var n := WorkingLength(f);
    Split(f);
    assert separator !in f.name[..i];
    assert separator !in f.name[i + 1..n];
    TrimKeepsOut(f.name[..i], separator);
    TrimKeepsOut(f.name[i + 1..n], separator);
  }

  /** A joined name in which the parts and the extension hold no separator has
      it only between the parts. */
  lemma JoinedSeparator(s: string, first: string, separator: char, spacing: bool, second: string, ext: string, j: int)
    requires separator !in first && separator !in second && separator !in ext
    requires !(spacing && separator == ' ')
    requires s == Joined(first, separator, spacing, second, ext) && j == |first| + |Space(spacing)|
    ensures OnlyAt(s, separator, j)
  {
    var sp := Space(spacing);
    var a, b := first + sp, sp + second + ext;
    assert s == a + [separator] + b;
    assert separator !in a && separator !in b;
    forall k | 0 <= k < |s| && k != j ensures s[k] != separator {
      if k < j {
        assert s[k] == a[k];
      } else {
        assert s[k] == b[k - j - 1];
      }
    }
  }

  /** A joined name keeps the extension it ends in, and the split with it. */
  lemma JoinedSplit(g: File, first: string, separator: char, spacing: bool, second: string, ext: string, n: int)
    requires separator != '.'
    requires IsExtension(ext) || ('.' !in first && '.' !in second && ext == [])
    requires g.name == Joined(first, separator, spacing, second, ext)
    requires n == |first| + 2 * |Space(spacing)| + 1 + |second|
    ensures WorkingLength(g) == n && KeptExtension(g) == ext
  {
    var head := first + Space(spacing) + [separator] + Space(spacing) + second;
    assert g.name == head + ext && |head| == n;
    assert '.' !in first && '.' !in second ==> '.' !in head;
    HeadSplit(g, head, ext);
  }

  /** A name made of a non-empty head and a real extension, or of a head
      without a dot alone, splits after the head. */
  lemma HeadSplit(g: File, head: string, ext: string)
    requires g.name == head + ext && |head| > 0
    requires IsExtension(ext) || ('.' !in head && ext == [])
    ensures WorkingLength(g) == |head| && KeptExtension(g) == ext
  {
    if IsExtension(ext) {
      SplitOfExtended(g.parent, head, ext);
      assert g == File(g.parent, head + ext);
    } else {
      assert g.name == head;
      SplitOfDotless(g);
    }
  }

  /** Trimming a trimmed part with the spacing on either side gives the part. */
  lemma TrimSpaced(t: string, spacing: bool)
    requires IsTrimmed(t)
    ensures Trim(t + Space(spacing)) == t && Trim(Space(spacing) + t) == t
  {
    if spacing {
      assert AllBlank(" ") && AllBlank([]);
      TrimPadded([], t, " ");
      assert [] + t + " " == t + Space(spacing);
      TrimPadded(" ", t, []);
      assert " " + t + [] == Space(spacing) + t;
    } else {
      assert AllBlank([]);
      TrimPadded([], t, []);
      assert [] + t + [] == t == t + Space(spacing) == Space(spacing) + t;
    }
  }

  /** The two stretches of a joined name that changeOrder trims give back the
      trimmed parts. */
  lemma JoinedParts(s: string, first: string, separator: char, spacing: bool, second: string, ext: string, j: int, n: int)
    requires IsTrimmed(first) && IsTrimmed(second)
    requires s == Joined(first, separator, spacing, second, ext)
    requires j == |first| + |Space(spacing)| && n == |first| + 2 * |Space(spacing)| + 1 + |second|
    ensures Trim(s[..j]) == first && Trim(s[j + 1..n]) == second
  {
    var sp := Space(spacing);
    assert s == (first + sp) + [separator] + (sp + second) + ext;
    assert s[..j] == first + sp;
    assert s[j + 1..n] == sp + second;
    TrimSpaced(first, spacing);
    TrimSpaced(second, spacing);
  }

  /** What changeOrder needs to know of a joined name of trimmed parts:
      where its one separator is, where its extension starts, and what the
      two parts trim to. */
  lemma JoinedFacts(g: File, first: string, separator: char, spacing: bool, second: string, ext: string, j: int, n: int)
    requires separator != '.' && !(spacing && separator == ' ')
    requires IsTrimmed(first) && IsTrimmed(second)
    requires separator !in first && separator !in second && separator !in ext
    requires IsExtension(ext) || ('.' !in first && '.' !in second && ext == [])
    requires g.name == Joined(first, separator, spacing, second, ext)
    requires j == |first| + |Space(spacing)| && n == |first| + 2 * |Space(spacing)| + 1 + |second|
    ensures OnlyAt(g.name, separator, j) && j < n == WorkingLength(g)
    ensures Trim(g.name[..j]) == first && Trim(g.name[j + 1..n]) == second && KeptExtension(g) == ext
  {
    JoinedSeparator(g.name, first, separator, spacing, second, ext, j);
    JoinedSplit(g, first, separator, spacing, second, ext, n);
    JoinedParts(g.name, first, separator, spacing, second, ext, j, n);
  }

  /** changeOrder swaps the parts of a joined name of trimmed parts. */
  lemma SwapJoined(p: string, first: string, separator: char, spacing: bool, second: string, ext: string)
    requires separator != '.' && !(spacing && separator == ' ')
    requires IsTrimmed(first) && IsTrimmed(second)
    requires separator !in first && separator !in second && separator !in ext
    requires IsExtension(ext) || ('.' !in first && '.' !in second && ext == [])
    ensures ChangeOrder(File(p, Joined(first, separator, spacing, second, ext)), separator, spacing) ==
      Ok(File(p, Joined(second, separator, spacing, first, ext)))
  {
    var g := File(p, Joined(first, separator, spacing, second, ext));
    var j, n := |first| + |Space(spacing)|, |first| + 2 * |Space(spacing)| + 1 + |second|;
    JoinedFacts(g, first, separator, spacing, second, ext, j, n);
    ChangeOrderSwaps(g, separator, spacing, j);
  }

  /** Once swapped, a name swaps back and forth: applying changeOrder to its
      own result gives the original parts, trimmed, in their original order,
      and applying it once more gives the first result again. This needs the
      name to have an extension or no dot at all, and the separator not to be
      the space that `spacing` adds. */
  lemma ChangeOrderInvolutive(f: File, separator: char, spacing: bool, i: int)
    requires separator != '.' && OnlyAt(f.name, separator, i) && i < WorkingLength(f)
    requires HasExtension(f) || '.' !in f.name
    requires !(spacing && separator == ' ')
    ensures var n := WorkingLength(f);
      var before, after := Trim(f.name[..i]), Trim(f.name[i + 1..n]);
      var g := File(f.parent, Joined(after, separator, spacing, before, KeptExtension(f)));
      var h := File(f.parent, Joined(before, separator, spacing, after, KeptExtension(f)));
      ChangeOrder(f, separator, spacing) == Ok(g) &&
      ChangeOrder(g, separator, spacing) == Ok(h) &&
      ChangeOrder(h, separator, spacing) == Ok(g)
  {
    var n, ext := WorkingLength(f), KeptExtension(f);
    var before, after := Trim(f.name[..i]), Trim(f.name[i + 1..n]);
    ChangeOrderSwaps(f, separator, spacing, i);
    SeparatorOnlyAt(f, separator, i);
    Split(f);
    if !HasExtension(f) {
      assert '.' !in f.name[..i] && '.' !in f.name[i + 1..n];
      TrimKeepsOut(f.name[..i], '.');
      TrimKeepsOut(f.name[i + 1..n], '.');
    }
    SwapJoined(f.parent, after, separator, spacing, before, ext);
    SwapJoined(f.parent, before, separator, spacing, after, ext);
  }

  /** The example of the documentation: `A - B.txt` split at its one `-`
      becomes `B - A.txt`. */
  lemma ChangeOrderExample(p: string)
    ensures ChangeOrder(File(p, "A - B.txt"), '-', true) == Ok(File(p, "B - A.txt"))
  {
    assert "A - B.txt" == Joined("A", '-', true, "B", ".txt");
    assert "B - A.txt" == Joined("B", '-', true, "A", ".txt");
    SwapJoined(p, "A", '-', true, "B", ".txt");
  }

  /** A name with two separators is left as it is. */
  lemma ChangeOrderTwoSeparators(p: string)
    ensures ChangeOrder(File(p, "A-B-C.txt"), '-', true) == Ok(File(p, "A-B-C.txt"))
  {
    TwoOccurrences("A-B-C.txt", '-', 1, 3);
    ChangeOrderUnchanged(File(p, "A-B-C.txt"), '-', true);
  }

  // ---------------------------------------------------------------------
  // replace
  // ---------------------------------------------------------------------

  /** Replaces every occurrence of `original` in the whole name, then cuts
      as many characters from the end as the extension has and puts the
      original extension there. Throws when the replaced name is shorter than
      the extension. */
  function Replace(f: File, original: string, replacement: string): (r: Outcome)
    ensures var replaced := JavaString.Replace(f.name, original, replacement);
      r == IndexOutOfBounds <==> HasExtension(f) && |replaced| < |GetExtension(f.name)|
    ensures !HasExtension(f) ==>
      r == Ok(File(f.parent, JavaString.Replace(f.name, original, replacement)))
  {
    var extension := GetExtension(f.name);
    var newName := JavaString.Replace(f.name, original, replacement);
    if HasExtension(f) then
      if |newName| < |extension| then IndexOutOfBounds
      else Ok(File(f.parent, newName[..|newName| - |extension|] + extension))
    else
      Ok(File(f.parent, newName))
  }

  /** With an extension, the replaced name keeps its length; its last
      `|ext|` characters are overwritten with the original extension, which
      is then the extension of the new name. */
  lemma ReplaceExtended(f: File, original: string, replacement: string, name: string)
    requires HasExtension(f) && Replace(f, original, replacement) == Ok(File(f.parent, name))
    ensures |name| == |JavaString.Replace(f.name, original, replacement)|
    ensures name[..|name| - |GetExtension(f.name)|] ==
      JavaString.Replace(f.name, original, replacement)[..|name| - |GetExtension(f.name)|]
    ensures GetExtension(name) == GetExtension(f.name)
  {
    var replaced, ext := JavaString.Replace(f.name, original, replacement), GetExtension(f.name);
    assert IsExtension(ext) && |ext| <= |replaced| && name == replaced[..|replaced| - |ext|] + ext by {
      assert '.' in f.name;
    }
    CutAndAppend(replaced, ext);
  }

  /** Cutting `|ext|` characters off a string and appending a real extension
      gives a string of the same length with that extension. */
  lemma CutAndAppend(s: string, ext: string)
    requires IsExtension(ext) && |ext| <= |s|
    ensures var t := s[..|s| - |ext|] + ext;
      |t| == |s| && t[..|s| - |ext|] == s[..|s| - |ext|] && GetExtension(t) == ext
  {
    ExtensionOfSuffix(s[..|s| - |ext|], ext);
  }

  /** A name in which `original` does not occur is left unchanged. */
  lemma ReplaceAbsentIsIdentity(f: File, original: string, replacement: string)
    requires original != [] && !Occurs(original, f.name)
    ensures Replace(f, original, replacement) == Ok(f)
  {
    ReplaceAbsent(f.name, original, replacement);
    if HasExtension(f) {
      assert f.name == f.name[..|f.name| - |GetExtension(f.name)|] + GetExtension(f.name);
    }
  }

  /** replace also rewrites inside the extension, and the cut that follows
      then removes part of the base name instead. Removing `t` from a name
      `head.txt`, where `t` does not occur in the base name `head`, takes the
      last two characters of `head` away (`ab.txt` becomes `.txt`), and throws
      when `head` has fewer than two (`a.txt`). */
  lemma ReplaceRewritesExtension(p: string, head: string)
    requires head != [] && 't' !in head
    ensures |head| < 2 ==> Replace(File(p, head + ".txt"), "t", "") == IndexOutOfBounds
    ensures |head| >= 2 ==> Replace(File(p, head + ".txt"), "t", "") == Ok(File(p, head[..|head| - 2] + ".txt"))
  {
    CharNotOccurs('t', head);
    SplitOfExtended(p, head, ".txt");
    RemoveTs(head);
    if |head| >= 2 {
      assert (head + ".x")[..|head| - 2] == head[..|head| - 2];
    }
  }

  /** Removing `t` from a `t`-free head followed by `.txt`. */
  lemma RemoveTs(head: string)
    requires 't' !in head
    ensures JavaString.Replace(head + ".txt", "t", "") == head + ".x"
  {
    ReplaceCharAppend(head, ".txt", 't', "");
    ReplaceCharAbsent(head, 't', "");
    RemoveTFromTxt();
  }

  lemma RemoveTFromTxt()
    ensures JavaString.Replace(".txt", "t", "") == ".x"
  {
    assert ".txt" == ['.'] + "txt" && "txt" == ['t'] + "xt" && "xt" == ['x'] + "t";
    ReplaceCharCons('.', "txt", 't', "");
    ReplaceCharCons('t', "xt", 't', "");
    ReplaceCharCons('x', "t", 't', "");
    ReplaceCharSelf('t', "");
  }

  /** replace as evidently intended: the replacement happens in the base name
      only, and the extension is put back untouched. */
  function ReplaceInBase(f: File, original: string, replacement: string): (r: File)
    ensures r.parent == f.parent
    ensures !HasExtension(f) ==> r.name == JavaString.Replace(f.name, original, replacement)
  {
    File(f.parent, JavaString.Replace(GetNameNoExtension(f), original, replacement) + KeptExtension(f))
  }

  /** With an extension, the intended replace ends in the original extension,
      and what comes before it is the base name with `original` replaced. */
  lemma ReplaceInBaseExtended(f: File, original: string, replacement: string)
    ensures var r, ext := ReplaceInBase(f, original, replacement), GetExtension(f.name);
      HasExtension(f) ==>
        |ext| <= |r.name| && GetExtension(r.name) == ext &&
        r.name[..|r.name| - |ext|] == JavaString.Replace(GetNameNoExtension(f), original, replacement)
  {
    if HasExtension(f) {
      var replaced, ext := JavaString.Replace(GetNameNoExtension(f), original, replacement), KeptExtension(f);
      Split(f);
      ExtensionOfSuffix(replaced, ext);
      assert (replaced + ext)[..|replaced|] == replaced;
    }
  }

  /** With the intended replace, a name whose base name does not contain
      `original` is left unchanged, `ab.txt` among them. */
  lemma ReplaceInBaseAbsentIsIdentity(f: File, original: string, replacement: string)
    requires original != [] && !Occurs(original, f.name[..WorkingLength(f)])
    ensures ReplaceInBase(f, original, replacement) == f
  {
    var n := WorkingLength(f);
    ReplaceAbsent(f.name[..n], original, replacement);
    assert f.name[..n] + KeptExtension(f) == f.name;
  }

  /** For a single character that the extension does not hold, replace and
      the intended replace agree. */
  lemma ReplaceCharOutsideExtension(f: File, c: char, replacement: string)
    requires c !in KeptExtension(f)
    ensures Replace(f, [c], replacement) == Ok(ReplaceInBase(f, [c], replacement))
  {
    var n, ext := WorkingLength(f), KeptExtension(f);
    var base := f.name[..n];
    assert f.name == base + ext;
    ReplaceCharAppend(base, ext, c, replacement);
    ReplaceCharAbsent(ext, c, replacement);
    var replaced := JavaString.Replace(base, [c], replacement);
    assert JavaString.Replace(f.name, [c], replacement) == replaced + ext;
    if HasExtension(f) {
      assert (replaced + ext)[..|replaced + ext| - |ext|] == replaced;
    }
  }

  // ---------------------------------------------------------------------
  // cases
  // ---------------------------------------------------------------------

  /** Option 0 lowercases a character, 1 uppercases it, 2 inverts its case;
      any other option leaves it. */
  function CaseMap(option: int, c: char): char {
    if option == 0 then ToLowerCase(c)
    else if option == 1 then ToUpperCase(c)
    else if option == 2 then (if IsUpperCase(c) then ToLowerCase(c) else ToUpperCase(c))
    else c
  }

  /** Case mapping never makes or removes a dot. */
  lemma CaseMapKeepsDot(option: int, c: char)
    ensures CaseMap(option, c) == '.' <==> c == '.'
  {
  }

  /** Inverting the case twice gives the character back. */
  lemma CaseMapInvolution(c: char)
    ensures CaseMap(2, CaseMap(2, c)) == c
  {
  }

  /** Lowercasing or uppercasing twice is the same as once. */
  lemma CaseMapIdempotent(option: int, c: char)
    requires option == 0 || option == 1
    ensures CaseMap(option, CaseMap(option, c)) == CaseMap(option, c)
  {
  }

  /** Every character of `s` mapped with the given option. */
  function CaseMapped(option: int, s: string): (r: string)
    ensures |r| == |s| && forall i :: 0 <= i < |s| ==> r[i] == CaseMap(option, s[i])
  {
    seq(|s|, i requires 0 <= i < |s| => CaseMap(option, s[i]))
  }

  /** A string that agrees with the mapping at every position is the mapped string. */
  lemma CaseMappedExt(option: int, s: string, r: string)
    requires |r| == |s| && forall i :: 0 <= i < |s| ==> r[i] == CaseMap(option, s[i])
    ensures r == CaseMapped(option, s)
  {
  }

  /** Inverting the case of a string twice gives it back. */
  lemma CaseMappedInvolution(s: string)
    ensures CaseMapped(2, CaseMapped(2, s)) == s
  {
    var t := CaseMapped(2, CaseMapped(2, s));
    forall i | 0 <= i < |s| ensures t[i] == s[i] {
      CaseMapInvolution(s[i]);
    }
  }

  /** Lowercasing, or uppercasing, a string twice is the same as once. */
  lemma CaseMappedIdempotent(option: int, s: string)
    requires option == 0 || option == 1
    ensures CaseMapped(option, CaseMapped(option, s)) == CaseMapped(option, s)
  {
    var t := CaseMapped(option, s);
    forall i | 0 <= i < |s| ensures CaseMapped(option, t)[i] == t[i] {
      CaseMapIdempotent(option, s[i]);
    }
  }

  /** The new name `cases` gives. Options 0, 1 and 2 map every character of
      the base name and put the original extension back, untouched; any other
      option appends the kept extension to the whole name. */
  function CasedName(f: File, option: int): (name: string)
    ensures 0 <= option <= 2 ==> |name| == |f.name|
  {
    if 0 <= option <= 2 then CaseMapped(option, f.name[..WorkingLength(f)]) + KeptExtension(f)
    else f.name + KeptExtension(f)
  }

  /** Options 0, 1 and 2 map each character of the base name and keep each
      character of the extension. */
  lemma CasedNameMaps(f: File, option: int)
    requires 0 <= option <= 2
    ensures var name := CasedName(f, option);
      (forall i :: 0 <= i < WorkingLength(f) ==> name[i] == CaseMap(option, f.name[i])) &&
      forall i :: WorkingLength(f) <= i < |f.name| ==> name[i] == f.name[i]
  {
    Split(f);
    MappedThenKept(option, f.name, WorkingLength(f), KeptExtension(f), CasedName(f, option));
  }

  /** A mapped prefix followed by the rest of a name maps the prefix's
      characters and keeps the others. */
  lemma MappedThenKept(option: int, s: string, n: nat, rest: string, r: string)
    requires n <= |s| && |rest| == |s| - n
    requires forall k :: 0 <= k < |rest| ==> rest[k] == s[n + k]
    requires r == CaseMapped(option, s[..n]) + rest
    ensures |r| == |s|
    ensures forall i :: 0 <= i < n ==> r[i] == CaseMap(option, s[i])
    ensures forall i :: n <= i < |s| ==> r[i] == s[i]
  {
    forall i | n <= i < |s| ensures r[i] == s[i] {
      assert r[i] == rest[i - n];
    }
  }

  /** `cases` itself: options 0 and 1 map the whole name and cut it to the base
      name; option 2 inverts the case of the base name's characters one by one
      in a character array. */
  method Cases(f: File, option: int) returns (r: File)
    ensures r == File(f.parent, CasedName(f, option))
  {
    var extension := GetExtension(f.name);
    var newName := f.name;
    var length: int;
    if HasExtension(f) {
      length := GetLengthNoExtension(f);
    } else {
      length := |f.name|;
      extension := "";
    }
    if option == 0 {
      newName := StringToLowerCase(f.name)[..length];
      MappedPrefix(0, f.name, length);
    } else if option == 1 {
      newName := StringToUpperCase(f.name)[..length];
      MappedPrefix(1, f.name, length);
    } else if option == 2 {
      newName := InvertCasePrefix(f.name, length);
    }
    r := File(f.parent, newName + extension);
    CasedNameOf(f, option, length, extension, newName);
  }

  /** The pieces `cases` computes make up the cased name. */
  lemma CasedNameOf(f: File, option: int, length: int, extension: string, newName: string)
    requires length == (if HasExtension(f) then GetLengthNoExtension(f) else |f.name|)
    requires extension == (if HasExtension(f) then GetExtension(f.name) else "")
    requires 0 <= option <= 2 ==> newName == CaseMapped(option, f.name[..length])
    requires !(0 <= option <= 2) ==> newName == f.name
    ensures newName + extension == CasedName(f, option)
  {
  }

  /** Lowercasing, or uppercasing, the whole string and keeping a prefix maps that prefix. */
  lemma MappedPrefix(option: int, s: string, n: int)
    requires option == 0 || option == 1
    requires 0 <= n <= |s|
    ensures option == 0 ==> StringToLowerCase(s)[..n] == CaseMapped(0, s[..n])
    ensures option == 1 ==> StringToUpperCase(s)[..n] == CaseMapped(1, s[..n])
  {
    if option == 0 {
      CaseMappedExt(0, s[..n], StringToLowerCase(s)[..n]);
    } else {
      CaseMappedExt(1, s[..n], StringToUpperCase(s)[..n]);
    }
  }

  /** Any other option keeps the name and appends the kept extension, so a
      file with an extension gets it twice. */
  lemma CasesOtherOption(f: File, option: int)
    requires !(0 <= option <= 2)
    ensures HasExtension(f) ==>
      CasedName(f, option) == GetNameNoExtension(f) + GetExtension(f.name) + GetExtension(f.name)
    ensures !HasExtension(f) ==> CasedName(f, option) == f.name
  {
  }

  /** Option 2 of `cases`: copies the name into a character array, inverts the
      case of its first `length` characters in place and keeps those. */
  method InvertCasePrefix(s: string, length: nat) returns (t: string)
    requires length <= |s|
    ensures t == CaseMapped(2, s[..length])
  {
    var chars := new char[|s|](i requires 0 <= i < |s| => s[i]);
    for i := 0 to length
      invariant forall k :: 0 <= k < i ==> chars[k] == CaseMap(2, s[k])
      invariant forall k :: i <= k < chars.Length ==> chars[k] == s[k]
    {
      chars[i] := if IsUpperCase(chars[i]) then ToLowerCase(chars[i]) else ToUpperCase(chars[i]);
    }
    t := chars[..length];
    CaseMappedExt(2, s[..length], t);
  }

  /** A cased name has its dots where the name had them, so it splits at the
      same place and keeps the same extension. */
  lemma CasedSplit(f: File, option: int)
    requires 0 <= option <= 2
    ensures var g := File(f.parent, CasedName(f, option));
      HasExtension(g) == HasExtension(f) && WorkingLength(g) == WorkingLength(f) &&
      KeptExtension(g) == KeptExtension(f)
  {
    var g := File(f.parent, CasedName(f, option));
    Split(f);
    if HasExtension(f) {
      SplitOfExtended(f.parent, CaseMapped(option, GetNameNoExtension(f)), KeptExtension(f));
    } else {
      forall i | 0 <= i < |f.name| ensures f.name[i] == '.' <==> g.name[i] == '.' {
        CaseMapKeepsDot(option, f.name[i]);
      }
      SameDotsSameSplit(f, g);
    }
  }

  /** Casing a cased name maps its base name a second time and keeps the
      extension. */
  lemma CasedTwice(f: File, option: int, g: File)
    requires 0 <= option <= 2 && g == File(f.parent, CasedName(f, option))
    ensures CasedName(g, option) ==
      CaseMapped(option, CaseMapped(option, GetNameNoExtension(f))) + KeptExtension(f)
  {
    CasedSplit(f, option);
    assert g.name[..WorkingLength(f)] == CaseMapped(option, GetNameNoExtension(f));
  }

  /** Option 2 twice gives the name back. */
  lemma InvertCasesInvolution(f: File)
    ensures CasedName(File(f.parent, CasedName(f, 2)), 2) == f.name
  {
    var base := GetNameNoExtension(f);
    CasedTwice(f, 2, File(f.parent, CasedName(f, 2)));
    CaseMappedInvolution(base);
    Rejoin(f);
  }

  /** Lowercasing, or uppercasing, a second time changes nothing. */
  lemma CasesIdempotent(f: File, option: int)
    requires option == 0 || option == 1
    ensures CasedName(File(f.parent, CasedName(f, option)), option) == CasedName(f, option)
  {
    CasedTwice(f, option, File(f.parent, CasedName(f, option)));
    CaseMappedIdempotent(option, GetNameNoExtension(f));
  }

  /** A non-empty head and a real extension: the head is mapped, the
      extension is put back as it was. */
  lemma CasedExtended(p: string, head: string, ext: string, option: int, base: string)
    requires |head| > 0 && IsExtension(ext) && 0 <= option <= 2
    requires |base| == |head| && forall i :: 0 <= i < |head| ==> base[i] == CaseMap(option, head[i])
    ensures CasedName(File(p, head + ext), option) == base + ext
  {
    SplitOfExtended(p, head, ext);
    assert (head + ext)[..|head|] == head;
    CaseMappedExt(option, head, base);
  }

  /** The extension is not case-mapped. */
  lemma CasesInvertExample(p: string)
    ensures CasedName(File(p, "AbC1" + ".txt"), 2) == "aBc1" + ".txt"
  {
    CasedExtended(p, "AbC1", ".txt", 2, "aBc1");
  }

  lemma CasesLowerExample(p: string)
    ensures CasedName(File(p, "REPORT" + ".TXT"), 0) == "report" + ".TXT"
  {
    CasedExtended(p, "REPORT", ".TXT", 0, "report");
  }

  // ---------------------------------------------------------------------
  // changeOrder with the separator in the extension
  // ---------------------------------------------------------------------

  /** A separator that occurs once, in the extension, makes changeOrder throw. */
  lemma ChangeOrderSeparatorInExtension(p: string, head: string, ext: string, separator: char, spacing: bool)
    requires |head| > 0 && IsExtension(ext) && separator != '.'
    requires separator !in head && multiset(ext)[separator] == 1
    ensures ChangeOrder(File(p, head + ext), separator, spacing) == IndexOutOfBounds
  {
    var f := File(p, head + ext);
    SplitOfExtended(p, head, ext);
    assert multiset(f.name) == multiset(head) + multiset(ext);
    ChangeOrderFails(f, separator, spacing);
  }

  /** `a.b-c` has one `-`, in its extension `.b-c`: changeOrder throws. */
  lemma ChangeOrderSeparatorInExtensionExample(p: string)
    ensures ChangeOrder(File(p, "a" + ".b-c"), '-', false) == IndexOutOfBounds
  {
    var ext := ".b-c";
    assert ext == [ext[0]] + [ext[1]] + [ext[2]] + [ext[3]];
    ChangeOrderSeparatorInExtension(p, "a", ext, '-', false);
  }

  /** changeOrder as evidently intended: where the code throws, because the
      one separator lies in the extension, the name is left unchanged, like
      every other case the guard turns away. */
  function ChangeOrderInBase(f: File, separator: char, spacing: bool): (r: File)
    ensures r.parent == f.parent
  {
    match ChangeOrder(f, separator, spacing)
    case Ok(g) => g
    case IndexOutOfBounds => f
  }

  /** The intended changeOrder leaves a file whose extension holds the
      separator unchanged, and otherwise never throws and gives what
      changeOrder gives. */
  lemma ChangeOrderInBaseKeepsExtension(f: File, separator: char, spacing: bool)
    ensures HasExtension(f) && separator in GetExtension(f.name) ==>
      ChangeOrderInBase(f, separator, spacing) == f
    ensures !(HasExtension(f) && separator in GetExtension(f.name)) ==>
      ChangeOrder(f, separator, spacing) == Ok(ChangeOrderInBase(f, separator, spacing))
  {
    ChangeOrderFails(f, separator, spacing);
    if separator == '.' || multiset(f.name)[separator] != 1 {
      ChangeOrderUnchanged(f, separator, spacing);
    }
  }
}
