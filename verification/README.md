# FileFunctions: a verified model of namely's file-name transformations

namely is a batch file renamer. Its renaming rules are in one stateless Java
class, `usbac.namely.FileFunctions`. Each rule takes a `java.io.File`, reads
its name, and either returns a value computed from the name or builds
`new File(parent, newName)`. This project models that class in Dafny:

- `java_string.dfy` (module `JavaString`) gives the behaviour of the
  `java.lang.String`, `StringBuffer` and `Character` operations the rules use:
  `indexOf`, `lastIndexOf`, `replace(CharSequence, CharSequence)` (scanned left
  to right, without overlap, with Java's empty-target behaviour), `trim`,
  `reverse`, and ASCII `toLowerCase` / `toUpperCase`.
- `file_functions.dfy` (module `FileFunctions`) models a file as a
  `File(parent, name)` pair. It has the extension rule (`getExtension`,
  `hasExtension`, `getNameNoExtension`, `getLengthNoExtension`),
  `numberOfMatches`, and the four transformations `inverse`, `changeOrder`,
  `replace` and `cases`.

The `StringIndexOutOfBoundsException` that `substring` throws in `changeOrder`
and `replace` is not a precondition here. It is a result:
`Outcome.IndexOutOfBounds`. Every input the Java code accepts is accepted by
the model.

`cases` is a method. Options 0 and 1 map the whole name and cut it. Option 2
copies the name into a `char` array and inverts the case of its first
`length` characters in a loop (`InvertCasePrefix`). The method is proved
equal to the function `CasedName`, and the properties of `cases` are proved
about that function. Every other operation is an expression over substrings,
so it is a function.

Some details of the code a reader might not expect. The model follows the
code in each:

- `numberOfMatches` is the number of characters removed, not the number of
  occurrences. For `"aaa"` and `"aa"` it is 2.
- `changeOrder` counts and finds the separator over the whole name, extension
  included.
- `cases` puts the original, unmapped extension back after options 0-2. For
  any other option it appends the extension to the unchanged name, so the
  extension appears twice.
- The documentation of `cases` numbers its options 1 (lowercase), 2
  (uppercase) and 3 (invert), but the switch uses 0, 1 and 2. The model uses
  0, 1 and 2, as the code does.
- `getNameNoExtension` returns the whole name, not `""`, when there is no
  extension.
- `replace` with an empty `original` is modelled as Java does it: the
  replacement goes before every character and at the end. It is not excluded
  by a precondition.

## Model

| member | source | states |
|---|---|---|
| FileFunctions.NumberOfMatches | src/main/java/usbac/namely/FileFunctions.java:13-15 | the count lies between 0 and the name's length, and is 0 for the empty string |
| FileFunctions.NumberOfMatchesIsRemovedLength | src/main/java/usbac/namely/FileFunctions.java:13-15 | the count is the number of non-overlapping occurrences a left-to-right scan finds, times the length of the string looked for |
| FileFunctions.NumberOfMatchesOfChar | src/main/java/usbac/namely/FileFunctions.java:13-15 | for a single character, the count is the number of times it occurs in the name |
| FileFunctions.NumberOfMatchesOverlapping | src/main/java/usbac/namely/FileFunctions.java:13-15 | `"aa"` in `"aaa"` gives 2: overlaps are not counted and the result is not divided by the length |
| FileFunctions.GetExtension | src/main/java/usbac/namely/FileFunctions.java:33-37 | a name without a dot is its own extension; otherwise the extension is a suffix of the name that starts with a dot and holds no other dot |
| FileFunctions.ExtensionOfSuffix | src/main/java/usbac/namely/FileFunctions.java:33-37 | whatever precedes it, a dot-led suffix with no other dot is the extension |
| FileFunctions.HasExtension | src/main/java/usbac/namely/FileFunctions.java:23-25 | no contract of its own: whether the extension is shorter than the name; characterised by HasExtensionIff |
| FileFunctions.HasExtensionIff | src/main/java/usbac/namely/FileFunctions.java:23-25 | a file has an extension exactly when its name has a dot after the first character, so `.bashrc` and dotless names have none |
| FileFunctions.SameDotsSameSplit | src/main/java/usbac/namely/FileFunctions.java:23-25 | two names with dots at the same positions agree on having an extension and on where the base name ends |
| FileFunctions.GetNameNoExtension | src/main/java/usbac/namely/FileFunctions.java:45-51 | with an extension, the name minus as many final characters as the extension has; without one, the whole name |
| FileFunctions.GetLengthNoExtension | src/main/java/usbac/namely/FileFunctions.java:173-175 | with an extension, the length of the base name, which is non-empty and shorter than the name, and is the position of the last dot; without one, 0 |
| FileFunctions.KeptExtension | src/main/java/usbac/namely/FileFunctions.java:85-94 | no contract of its own: the extension changeOrder, replace and cases put back, emptied when there is none (lines 93, 125, 144); characterised by WorkingLength, Rejoin and Split |
| FileFunctions.WorkingLength | src/main/java/usbac/namely/FileFunctions.java:88-94 | the `length` of changeOrder and cases splits the name into the base name and the extension put back |
| FileFunctions.Rejoin | src/main/java/usbac/namely/FileFunctions.java:45-51 | the base name followed by the extension put back is the name |
| FileFunctions.Split | src/main/java/usbac/namely/FileFunctions.java:85-94 | with an extension, the base name is non-empty and the extension is dot-led with no other dot; without one, nothing is put back |
| FileFunctions.SplitOfExtended | src/main/java/usbac/namely/FileFunctions.java:33-37 | a non-empty head followed by a real extension has that extension and that base name |
| FileFunctions.SplitOfDotless | src/main/java/usbac/namely/FileFunctions.java:33-35 | a dotless name has no extension and is all base name |
| FileFunctions.Inverse | src/main/java/usbac/namely/FileFunctions.java:59-68 | the parent is kept and the name keeps its length |
| FileFunctions.InverseMaps | src/main/java/usbac/namely/FileFunctions.java:59-68 | the base name is read backwards and every character of the extension stays in place |
| FileFunctions.InverseOfExtended | src/main/java/usbac/namely/FileFunctions.java:59-68 | a head with a real extension becomes the reversed head followed by the same extension |
| FileFunctions.InverseOfDotless | src/main/java/usbac/namely/FileFunctions.java:65-67 | without an extension the whole name is reversed |
| FileFunctions.InverseInvolution | src/main/java/usbac/namely/FileFunctions.java:59-68 | inverting twice gives the file back when the name has an extension or no dot at all |
| FileFunctions.DotLedHasNoExtension | src/main/java/usbac/namely/FileFunctions.java:23-25 | a name whose only dot leads it has no extension |
| FileFunctions.InverseOfDotLedName | src/main/java/usbac/namely/FileFunctions.java:59-68 | `.ab` inverts to `ba.`, which inverts to `ab.`: without the precondition above, inverting twice does not give the name back |
| FileFunctions.ChangeOrder | src/main/java/usbac/namely/FileFunctions.java:79-108 | the parent is kept |
| FileFunctions.Space | src/main/java/usbac/namely/FileFunctions.java:104 | no contract of its own: one space when `spacing`, nothing otherwise |
| FileFunctions.Joined | src/main/java/usbac/namely/FileFunctions.java:106 | no contract of its own: the new name of changeOrder, second part, padded separator, first part, extension; characterised by JoinedSeparator, JoinedSplit and JoinedParts |
| FileFunctions.ChangeOrderUnchanged | src/main/java/usbac/namely/FileFunctions.java:81-83 | the dot as separator, or a separator that does not occur exactly once in the whole name, leaves the file unchanged |
| FileFunctions.ChangeOrderFails | src/main/java/usbac/namely/FileFunctions.java:96-103 | the operation throws exactly when the separator is not the dot, occurs once, and lies in the extension put back |
| FileFunctions.ChangeOrderSwaps | src/main/java/usbac/namely/FileFunctions.java:96-107 | a separator found once, before the extension, gives the trimmed second part, the separator padded when spacing is asked for, the trimmed first part, and the extension |
| FileFunctions.SeparatorFound | src/main/java/usbac/namely/FileFunctions.java:81-96 | a separator at one position only is counted once and found there |
| FileFunctions.SeparatorPosition | src/main/java/usbac/namely/FileFunctions.java:96-103 | the single separator lies before the end of the base name exactly when the extension does not hold it |
| FileFunctions.SingleOccurrence | src/main/java/usbac/namely/FileFunctions.java:81-82 | a character at one position only occurs once |
| FileFunctions.OnceOnlyAt | src/main/java/usbac/namely/FileFunctions.java:81-96 | a character that occurs once is found only where it is |
| FileFunctions.SuffixHolds | src/main/java/usbac/namely/FileFunctions.java:96-103 | a character at one position only lies in a suffix exactly when its position does |
| FileFunctions.SeparatorOnlyAt | src/main/java/usbac/namely/FileFunctions.java:96-106 | the separator occurs in neither trimmed part nor the extension |
| FileFunctions.JoinedSeparator | src/main/java/usbac/namely/FileFunctions.java:104-106 | a rebuilt name whose parts hold no separator has it only between the parts |
| FileFunctions.JoinedSplit | src/main/java/usbac/namely/FileFunctions.java:85-94 | a rebuilt name keeps the extension it ends in and its base name ends where that extension starts |
| FileFunctions.HeadSplit | src/main/java/usbac/namely/FileFunctions.java:33-37 | a non-empty head with a real extension, or a dotless head alone, splits right after the head |
| FileFunctions.TrimSpaced | src/main/java/usbac/namely/FileFunctions.java:98-104 | trimming a trimmed part with the spacing on one side gives the part |
| FileFunctions.JoinedParts | src/main/java/usbac/namely/FileFunctions.java:98-106 | the two stretches changeOrder trims in a rebuilt name give back the trimmed parts |
| FileFunctions.JoinedFacts | src/main/java/usbac/namely/FileFunctions.java:96-106 | in a rebuilt name of trimmed parts the separator is found once, between the parts and before the extension |
| FileFunctions.SwapJoined | src/main/java/usbac/namely/FileFunctions.java:79-108 | changeOrder swaps the two trimmed parts of a rebuilt name and keeps its extension |
| FileFunctions.ChangeOrderInvolutive | src/main/java/usbac/namely/FileFunctions.java:79-108 | after one swap, changeOrder swaps back and forth between the two orders of the trimmed parts |
| FileFunctions.ChangeOrderExample | src/main/java/usbac/namely/FileFunctions.java:72-73 | `A - B.txt` with `-` and spacing becomes `B - A.txt`, the documented example |
| FileFunctions.ChangeOrderTwoSeparators | src/main/java/usbac/namely/FileFunctions.java:81-83 | `A-B-C.txt` with `-` is left as it is |
| FileFunctions.Replace | src/main/java/usbac/namely/FileFunctions.java:118-127 | the operation throws exactly when the file has an extension longer than the replaced name; without an extension the result is the replaced name |
| FileFunctions.ReplaceExtended | src/main/java/usbac/namely/FileFunctions.java:122-126 | with an extension, the new name has the replaced name's length, agrees with it up to the extension, and has the original extension |
| FileFunctions.CutAndAppend | src/main/java/usbac/namely/FileFunctions.java:123-126 | cutting the extension's length off a string and appending the extension keeps the length and yields that extension |
| FileFunctions.ReplaceAbsentIsIdentity | src/main/java/usbac/namely/FileFunctions.java:118-127 | a non-empty `original` that does not occur in the name leaves the file unchanged |
| FileFunctions.ReplaceRewritesExtension | src/main/java/usbac/namely/FileFunctions.java:118-127 | removing `t` from `head.txt` where the head has no `t` cuts two characters off the head, and throws when the head is shorter than two |
| FileFunctions.RemoveTs | src/main/java/usbac/namely/FileFunctions.java:120-121 | removing `t` from a `t`-free head followed by `.txt` gives the head followed by `.x` |
| FileFunctions.RemoveTFromTxt | src/main/java/usbac/namely/FileFunctions.java:120-121 | removing `t` from `.txt` gives `.x` |
| FileFunctions.ReplaceInBase | src/main/java/usbac/namely/FileFunctions.java:118-127 | the corrected replace keeps the parent, and without an extension replaces in the whole name |
| FileFunctions.ReplaceInBaseExtended | src/main/java/usbac/namely/FileFunctions.java:118-127 | with an extension, the corrected replace ends in the original extension and is the base name with `original` replaced before it |
| FileFunctions.ReplaceInBaseAbsentIsIdentity | src/main/java/usbac/namely/FileFunctions.java:118-127 | the corrected replace leaves a file whose base name lacks `original` unchanged |
| FileFunctions.ReplaceCharOutsideExtension | src/main/java/usbac/namely/FileFunctions.java:118-127 | for a single character absent from the extension, replace and the corrected replace agree |
| FileFunctions.CaseMap | src/main/java/usbac/namely/FileFunctions.java:147-159 | no contract of its own: the per-character map of each option, and the identity for any other option; the letters it produces are fixed by the contracts of JavaString.ToLowerCase and JavaString.ToUpperCase (the same letter of the alphabet in the other case); CaseMapKeepsDot, CaseMapInvolution and CaseMapIdempotent state further properties |
| FileFunctions.CaseMapKeepsDot | src/main/java/usbac/namely/FileFunctions.java:149-159 | no case mapping makes or removes a dot |
| FileFunctions.CaseMapInvolution | src/main/java/usbac/namely/FileFunctions.java:158-159 | inverting the case of a character twice gives it back |
| FileFunctions.CaseMapIdempotent | src/main/java/usbac/namely/FileFunctions.java:149-152 | lowercasing, or uppercasing, a character twice is the same as once |
| FileFunctions.CaseMapped | src/main/java/usbac/namely/FileFunctions.java:149-161 | the mapped string has the same length and each character mapped |
| FileFunctions.CaseMappedExt | src/main/java/usbac/namely/FileFunctions.java:149-161 | a string that agrees with the mapping at every position is the mapped string |
| FileFunctions.CaseMappedInvolution | src/main/java/usbac/namely/FileFunctions.java:155-161 | inverting the case of a string twice gives it back |
| FileFunctions.CaseMappedIdempotent | src/main/java/usbac/namely/FileFunctions.java:149-152 | lowercasing, or uppercasing, a string twice is the same as once |
| FileFunctions.CasedName | src/main/java/usbac/namely/FileFunctions.java:136-165 | options 0, 1 and 2 keep the name's length |
| FileFunctions.CasedNameMaps | src/main/java/usbac/namely/FileFunctions.java:136-165 | options 0, 1 and 2 map each character of the base name and keep each character of the extension |
| FileFunctions.MappedThenKept | src/main/java/usbac/namely/FileFunctions.java:161-164 | a mapped prefix followed by the rest of a name maps the prefix and keeps the rest |
| FileFunctions.Cases | src/main/java/usbac/namely/FileFunctions.java:136-165 | the method's result is the cased name with the original parent |
| FileFunctions.CasedNameOf | src/main/java/usbac/namely/FileFunctions.java:137-164 | the length, extension and mapped prefix `cases` computes make up the cased name |
| FileFunctions.MappedPrefix | src/main/java/usbac/namely/FileFunctions.java:149-152 | lowercasing or uppercasing the whole name and keeping a prefix maps that prefix |
| FileFunctions.InvertCasePrefix | src/main/java/usbac/namely/FileFunctions.java:155-161 | the array loop inverts the case of the first `length` characters and keeps exactly those |
| FileFunctions.CasesOtherOption | src/main/java/usbac/namely/FileFunctions.java:147-164 | any other option keeps the name and, with an extension, appends it a second time |
| FileFunctions.CasedSplit | src/main/java/usbac/namely/FileFunctions.java:136-165 | the cased name has an extension exactly when the name did, at the same place, and the same one |
| FileFunctions.CasedTwice | src/main/java/usbac/namely/FileFunctions.java:136-165 | casing a cased name maps its base name twice and keeps the extension |
| FileFunctions.InvertCasesInvolution | src/main/java/usbac/namely/FileFunctions.java:155-164 | option 2 applied twice gives the name back |
| FileFunctions.CasesIdempotent | src/main/java/usbac/namely/FileFunctions.java:147-153 | options 0 and 1 applied twice are the same as once |
| FileFunctions.CasedExtended | src/main/java/usbac/namely/FileFunctions.java:136-165 | a head with a real extension gets its head mapped and its extension put back untouched |
| FileFunctions.CasesInvertExample | src/main/java/usbac/namely/FileFunctions.java:155-164 | `AbC1.txt` with option 2 becomes `aBc1.txt` |
| FileFunctions.CasesLowerExample | src/main/java/usbac/namely/FileFunctions.java:149-164 | `REPORT.TXT` with option 0 becomes `report.TXT` |
| FileFunctions.ChangeOrderSeparatorInExtension | src/main/java/usbac/namely/FileFunctions.java:101-103 | a separator that occurs once, in the extension, makes changeOrder throw |
| FileFunctions.ChangeOrderSeparatorInExtensionExample | src/main/java/usbac/namely/FileFunctions.java:101-103 | `a.b-c` with `-` throws |
| FileFunctions.ChangeOrderInBase | src/main/java/usbac/namely/FileFunctions.java:79-108 | the corrected changeOrder keeps the parent |
| FileFunctions.ChangeOrderInBaseKeepsExtension | src/main/java/usbac/namely/FileFunctions.java:79-108 | the corrected changeOrder leaves a file whose extension holds the separator unchanged, and on every other file changeOrder itself does not throw and gives the same result |
| JavaString.IndexOf | src/main/java/usbac/namely/FileFunctions.java:96 | -1 exactly when the character is absent; otherwise its first position |
| JavaString.LastIndexOf | src/main/java/usbac/namely/FileFunctions.java:36 | -1 exactly when the character is absent; otherwise its last position |
| JavaString.Reverse | src/main/java/usbac/namely/FileFunctions.java:61-63 | same length, each character read from the mirrored position |
| JavaString.ReverseInvolution | src/main/java/usbac/namely/FileFunctions.java:61-63 | reversing twice gives the string back |
| JavaString.ReverseAppend | src/main/java/usbac/namely/FileFunctions.java:61-63 | reversing a concatenation reverses the parts and swaps them |
| JavaString.ReverseKeepsOut | src/main/java/usbac/namely/FileFunctions.java:61-63 | reversing adds no character |
| JavaString.Replace | src/main/java/usbac/namely/FileFunctions.java:14 | the length changes by the replacement's length minus the target's, once per occurrence, or grows by one replacement per gap for an empty target |
| JavaString.InsertEverywhere | src/main/java/usbac/namely/FileFunctions.java:14 | the empty target adds one replacement per gap, and an empty replacement changes nothing |
| JavaString.MatchCount | src/main/java/usbac/namely/FileFunctions.java:14 | the occurrences found take up no more than the whole string |
| JavaString.ReplaceMatches | src/main/java/usbac/namely/FileFunctions.java:120-121 | each occurrence found trades the target's length for the replacement's |
| JavaString.ReplaceAbsent | src/main/java/usbac/namely/FileFunctions.java:120-121 | an absent target leaves the string unchanged |
| JavaString.RemoveCharCount | src/main/java/usbac/namely/FileFunctions.java:14 | removing a character shortens the string by its number of occurrences |
| JavaString.CharNotOccurs | src/main/java/usbac/namely/FileFunctions.java:120-121 | a character not in the string is not found in it |
| JavaString.ReplaceCharCons | src/main/java/usbac/namely/FileFunctions.java:120-121 | replacing a single character works one character at a time |
| JavaString.ReplaceCharAppend | src/main/java/usbac/namely/FileFunctions.java:120-121 | replacing a single character distributes over concatenation |
| JavaString.ReplaceCharAbsent | src/main/java/usbac/namely/FileFunctions.java:120-121 | a string without the character is unchanged |
| JavaString.ReplaceCharSelf | src/main/java/usbac/namely/FileFunctions.java:120-121 | the character alone becomes the replacement |
| JavaString.TrimStart | src/main/java/usbac/namely/FileFunctions.java:98-103 | the result is no longer and does not start with a blank |
| JavaString.TrimEnd | src/main/java/usbac/namely/FileFunctions.java:98-103 | the result is no longer, keeps the first character, and does not end with a blank |
| JavaString.Trim | src/main/java/usbac/namely/FileFunctions.java:98-103 | the result neither starts nor ends with a character up to U+0020 |
| JavaString.TrimKeepsOut | src/main/java/usbac/namely/FileFunctions.java:98-103 | trimming adds no character |
| JavaString.TrimStartKeepsOut | src/main/java/usbac/namely/FileFunctions.java:98-103 | stripping leading blanks adds no character |
| JavaString.TrimEndKeepsOut | src/main/java/usbac/namely/FileFunctions.java:98-103 | stripping trailing blanks adds no character |
| JavaString.TrimStartPadded | src/main/java/usbac/namely/FileFunctions.java:98-103 | leading blanks before a string that starts with a non-blank are stripped exactly |
| JavaString.TrimEndPadded | src/main/java/usbac/namely/FileFunctions.java:98-103 | trailing blanks after a string that ends with a non-blank are stripped exactly |
| JavaString.TrimPadded | src/main/java/usbac/namely/FileFunctions.java:98-103 | a trimmed string surrounded by blanks trims back to itself |
| JavaString.IsUpperCase | src/main/java/usbac/namely/FileFunctions.java:158 | no contract of its own: `Character.isUpperCase` on the ASCII letters |
| JavaString.IsLowerCase | src/main/java/usbac/namely/FileFunctions.java:159 | no contract of its own: `Character.isLowerCase` on the ASCII letters, which `toUpperCase` uses |
| JavaString.ToLowerCase | src/main/java/usbac/namely/FileFunctions.java:158-159 | an uppercase ASCII letter becomes the same letter in lowercase; anything else is unchanged |
| JavaString.ToUpperCase | src/main/java/usbac/namely/FileFunctions.java:158-159 | a lowercase ASCII letter becomes the same letter in uppercase; anything else is unchanged |
| JavaString.StringToLowerCase | src/main/java/usbac/namely/FileFunctions.java:149 | same length, each character lowercased |
| JavaString.StringToUpperCase | src/main/java/usbac/namely/FileFunctions.java:152 | same length, each character uppercased |

## Left out

- `getSizeInKb` (FileFunctions.java:183-185) is not modelled. It queries the filesystem for the file's length and formats a float with `String.format`, which depends on the locale.
- `java.io.File` is a plain `(parent, name)` pair. Path normalisation by `new File(parent, name)` is not modelled: a `/` inside a name, an empty name, and a null parent are all outside the model.
- Case mapping covers the ASCII letters only. Java's locale-aware `toLowerCase` / `toUpperCase` can change a string's length (`ß` becomes `SS`), and `Character.isUpperCase` knows every Unicode letter. Neither is modelled.
- Java strings count UTF-16 code units, and a Dafny `char` is a Unicode scalar value. They agree on the Basic Multilingual Plane. A character beyond it is two units in Java and one `char` here, so for such names every length and index differs: `numberOfMatches`, `getLengthNoExtension` and the `substring` bounds count it once instead of twice. Reversal is not affected, because `StringBuffer.reverse` keeps surrogate pairs together.
- Java's `int` is 32 bits wide, but names are far shorter than 2^31 characters, so lengths and indices are unbounded integers.
- FileFunctions.InverseInvolution: proved only for names that have an extension or no dot at all. InverseOfDotLedName shows that a name whose only dot leads it does not come back.
- FileFunctions.ChangeOrderInvolutive: proved only when the separator is not the space that `spacing` adds and the name has an extension or no dot. Otherwise trimming or the extension rule can move the parts.
- FileFunctions.Inverse: its own ensures state only that the parent and the name's length are kept; the characters are stated by InverseMaps, InverseOfExtended and InverseOfDotless.
- FileFunctions.CasedName: its own ensures state only that options 0-2 keep the name's length; the characters are stated by CasedNameMaps and CasesOtherOption.
- FileFunctions.ChangeOrder: its own ensures state only that the parent is kept; the result for every input is stated by ChangeOrderUnchanged, ChangeOrderFails and ChangeOrderSwaps.
- FileFunctions.Replace: its own ensures state when it throws and the result without an extension; the result with an extension is stated by ReplaceExtended.
- FileFunctions.ReplaceInBase: its own ensures state the parent and the result without an extension; the result with an extension is stated by ReplaceInBaseExtended.
- FileFunctions.ChangeOrderInBase: its own ensures state only that the parent is kept; its result is stated by ChangeOrderInBaseKeepsExtension.

## Findings

| source | as written | input that shows it | evidently intended | confidence | as-written member | corrected member |
|---|---|---|---|---|---|---|
| src/main/java/usbac/namely/FileFunctions.java:118-127 | `replace` runs over the whole name, extension included, then cuts as many characters as the original extension has and appends it | removing `t` from `ab.txt` gives `.txt`, and from `a.txt` it throws | the replacement applies to the base name only and the extension is kept, so `ab.txt` stays `ab.txt` | not executed | FileFunctions.ReplaceRewritesExtension | FileFunctions.ReplaceInBase (with ReplaceInBaseExtended, ReplaceInBaseAbsentIsIdentity and ReplaceCharOutsideExtension) |
| src/main/java/usbac/namely/FileFunctions.java:101-103 | `changeOrder` counts and finds the separator over the whole name, so a single separator inside the extension gets past the guard, and `substring(separatorIndex + 1, length)` has its start past its end | `a.b-c` with separator `-` throws `StringIndexOutOfBoundsException` | a separator that is only in the extension leaves the name unchanged, like the other cases the guard turns away | not executed | FileFunctions.ChangeOrderSeparatorInExtension (with ChangeOrderSeparatorInExtensionExample and ChangeOrderFails) | FileFunctions.ChangeOrderInBase (with ChangeOrderInBaseKeepsExtension) |
