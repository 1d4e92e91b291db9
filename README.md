# Helper utilities: arrays and strings, modelled in Dafny

This project models the core of the PHP `Helper` utility library. It covers
two classes.

- `Arrays` works on PHP ordered arrays:
  - `clear` drops falsy values and can renumber the keys;
  - `whitelist` and `blacklist` keep or drop keys, through the private `remove`;
  - `compare` is a `usort` comparator keyed by the static `$comparison_key`;
  - `unsetByValue` unsets every entry that holds a value.
- `String` works on text:
  - `humanize`;
  - `removeAccents` on the path where the text already holds HTML entities;
  - `accents2entities` in both directions;
  - `onlyNumbers` and `onlyLetters`;
  - `numberBr2Eng`.

A PHP array is a sequence of `(Key, Value)` entries in insertion order
(`Arrays.Entry`). A key is an integer key or a string key. A valid array
(`Arrays.ValidArray`) has distinct keys, and none of its string keys spells a
canonical decimal integer, since PHP casts such a string to the integer key. Values are null, booleans, integers,
strings and nested arrays.

Strings are sequences of characters. Case mapping and the character classes
are ASCII.

The files are:

- `sequences.dfy` holds shared helpers:
  - `Filter`, the order-preserving selection that both `array_filter` and a
    deleting character-class `preg_replace` perform, with its lemmas;
  - `IndexOf`, which is `strpos`.
- `arrays.dfy` models `Arrays.php`:
  - `unsetByValue` changes its argument by reference, so it is a method of the
    class `PhpArray`, whose field holds the entries;
  - `compare` reads a static field, so it is a function of the class
    `KeyedComparator`;
  - `remove` and `array_keys` loop, so they are methods with loop invariants;
  - the rest are functions.
- `strings.dfy` models `humanize`, `onlyNumbers`, `onlyLetters` and
  `numberBr2Eng` as functions.
- `accents.dfy` models `removeAccents` and `accents2entities` as functions.
  - `removeAccents` is `preg_replace` with an array of 16 patterns. PHP applies
    these one after another, each pass to the result of the previous one. The
    model does the same (`ApplyGroups` over `ReplacePass`).
  - The main theorem (`RemoveAccentsPieces`) is about texts built from pieces.
    A piece is a plain character other than `&`, or a reference `&name;` whose
    name holds neither `&` nor `;`. On such a text, every listed entity becomes
    its bare letter and everything else is kept.
  - Outside that form, the sequential passes can combine. For example, the
    `a` pass turns `&Ogr&aacute;ve;` into `&Ograve;`, which the later `O` pass
    then turns into `O`. The model reproduces this by construction.

`numberBr2Eng` decides on the first `.` and the first `,` (String.php:120-121).
When both occur, `$dot > $comma` keeps the text as English format
(String.php:128-129). Otherwise both separators are exchanged in one `strtr`
(String.php:131), so "1.234,56" becomes "1,234.56".

## Model

| member | source | states |
|---|---|---|
| Sequences.IndexOf | String.php:120-121 | `strpos`: no position exactly when the character is absent; otherwise the position holds it and no earlier position does |
| Arrays.Falsy | Arrays.php:33 | PHP's falsy values, which `array_filter` without a callback drops: null, false, 0, "", "0" and the empty array (a predicate; `Arrays.ClearDefault` states what `clear` does with it) |
| Arrays.Kept | Arrays.php:33 | the keep decision of `array_filter`: without a callback a value is kept exactly when it is not falsy, with one exactly when the callback accepts it (a predicate; `Arrays.Survivors` and `Arrays.ClearDefault` state its effect) |
| Arrays.Survivors | Arrays.php:33 | `array_filter`: an entry survives exactly when it is in the input and its value is kept (not falsy, or accepted by the callback) |
| Arrays.Renumber | Arrays.php:34 | `array_merge` of one array: the same number of entries; `Arrays.RenumberEntries` gives each entry's key and value |
| Arrays.RenumberEntries | Arrays.php:34 | `array_merge` of one array: every value stays in place, string keys stay, and the i-th integer key becomes `next` plus the number of integer keys before it |
| Arrays.Clear | Arrays.php:32-36 | `clear`: the values are exactly the survivors' values in order, all kept. Without reindexing the survivors are returned as they are. With it, string keys stay and integer keys are renumbered in order from 0 |
| Arrays.ClearDefault | Arrays.php:32-35 | with the default callback and no reindexing, an entry is in the result exactly when it was in the input with a non-falsy value; the result is an in-order subsequence of the input |
| Arrays.RenumberDistinct | Arrays.php:34 | renumbering a valid array gives a valid array (no key collisions) |
| Arrays.ClearDistinct | Arrays.php:32-36 | `clear` maps valid arrays to valid arrays, with or without a callback and reindexing |
| Arrays.ClearReindexedList | Arrays.php:34 | after reindexing, an array whose keys are all integers has keys 0, 1, 2, ... in order |
| Arrays.ListedKey | Arrays.php:74-83 | a listed key names the key PHP looks up: "5" names the integer key 5, every key PHP can store names itself, and the result is always a key PHP can store |
| Arrays.ListKeys | Arrays.php:68 | a single key stands for the one-element list of keys; a list is used element by element; each listed key is read as the key it names |
| Arrays.NumericStringListed | Arrays.php:74-83 | listing "5" blacklists the integer key 5 and whitelists it, as `array_key_exists`, `unset` and `in_array` do |
| Arrays.KeyExists | Arrays.php:74 | `array_key_exists`: some entry has the key (a predicate; `Arrays.Remove` proves the blacklist loop collects exactly the listed keys that exist) |
| Arrays.UnsetOneMore | Arrays.php:82-83 | unsetting one more key after a set of keys is unsetting the extended set |
| Arrays.Remove | Arrays.php:67-86 | the private `remove`: in whitelist mode the result is exactly the entries whose key is listed, in blacklist mode exactly those whose key is not listed, in array order (the `$remove` loops and the unset loop carry invariants) |
| Arrays.WhitelistArray | Arrays.php:45-47 | `whitelist`: an entry is kept exactly when its key is listed, and the result is an in-order subsequence of the input |
| Arrays.BlacklistArray | Arrays.php:56-58 | `blacklist`: an entry is kept exactly when its key is not listed, and the result is an in-order subsequence of the input |
| Arrays.WhitelistBlacklistPartition | Arrays.php:45-58 | under exact key equality, the whitelist and the blacklist of the same keys share no entry and together hold every entry of the array exactly once |
| Arrays.ScalarListIsSingleton | Arrays.php:68 | passing one key behaves as passing the list of that key; a blacklisted single key is gone |
| Arrays.KeyOf | Arrays.php:114 | the array key for the string `$comparison_key`: an integer key exactly for a canonical decimal string, and then the integer its digits spell (negated after a `-`); otherwise the string itself |
| Arrays.KeyOfDecimal | Arrays.php:114 | the decimal notation of any integer is read as that integer key, so "5" reads `$a[5]` and "-7" reads `$a[-7]` |
| Arrays.KeyOfLeadingZero | Arrays.php:114 | a number written with a leading zero, such as "012", stays a string key |
| Arrays.Get | Arrays.php:114 | `$a[$key]`: the value of the entry with that key, or null when the key is missing |
| Arrays.EmptyString | Arrays.php:112 | `empty()` of a string key: exactly "" and "0" (a predicate; `Arrays.CompareEmptyKeys` and `Compare` state its effect) |
| Arrays.KeyedComparator.constructor | Arrays.php:18 | the comparison key starts as the empty string |
| Arrays.KeyedComparator.Compare | Arrays.php:111-118 | `compare`: throws exactly when the key is `empty()`; otherwise returns 0 exactly when the two keyed values are equal, -1 only when the first is smaller, 1 only when it is not |
| Arrays.CompareIsComparator | Arrays.php:88-118 | for a strict total order, `compare` is antisymmetric, reflexive and transitive, as `usort` needs; it throws for both argument orders alike |
| Arrays.CompareEmptyKeys | Arrays.php:112 | the keys "" and "0" both make `compare` throw |
| Arrays.Matches | Arrays.php:129 | the `$strict` choice of `array_keys`: identity when strict, the given loose `==` otherwise (a predicate; `Arrays.ArrayKeys` states its effect) |
| Arrays.WithoutValue | Arrays.php:121-122 | the entries left after removing a value: exactly the input entries that do not match it |
| Arrays.ArrayKeys | Arrays.php:129 | `array_keys($array, $value, $strict)`: the keys of the matching entries in array order; every matching entry's key is reported and every reported key belongs to a matching entry |
| Arrays.UnsetMatchingKeys | Arrays.php:129-131 | in a valid array, unsetting the keys `array_keys` reports removes exactly the entries holding the value |
| Arrays.WithoutValueProperties | Arrays.php:120-132 | after removing a value the array is still valid, no entry matches, every other entry is kept in order, and an array without a match is left as it was |
| Arrays.PhpArray.constructor | Arrays.php:128 | the array received by reference holds the given valid entries |
| Arrays.PhpArray.UnsetByValue | Arrays.php:128-132 | `unsetByValue`: the array stays valid and its new entries are the old entries without those matching the value (the unset loop carries the invariant) |
| Arrays.PhpArray.UnsetKeys | Arrays.php:131 | the unset loop: the new entries are exactly the old ones whose key is not among the given keys, in order |
| Strings.ReplaceChar | String.php:126 | `strtr` with one character: every occurrence of `from` becomes `to`, every other character is kept, length unchanged |
| Strings.StrToLower | String.php:38 | `strtolower`: same length, each character lowercased on its own |
| Strings.UcFirst | String.php:38 | `ucfirst`: same length, the first character uppercased and the rest kept |
| Strings.Humanize | String.php:36-40 | `humanize`: same length and no underscore left; each character equals the input's, with `_` read as a space, up to case; only the first character can be upper case, and it is never lower case |
| Strings.HumanizeIdempotent | String.php:36-40 | humanizing a humanized text changes nothing |
| Strings.HumanizeExample | String.php:32 | "NOT_REGISTERED" becomes "Not registered" |
| Strings.OnlyNumbers | String.php:101-103 | `onlyNumbers`: a character is in the result exactly when it is a digit of the input |
| Strings.OnlyLetters | String.php:110-112 | `onlyLetters`: a character is in the result exactly when it is an ASCII letter of the input |
| Strings.OnlyNumbersProperties | String.php:101-103 | the digits keep their order and their number of occurrences, filtering distributes over concatenation, is idempotent, and changes nothing exactly when the input is all digits |
| Strings.OnlyLettersProperties | String.php:110-112 | the same properties for ASCII letters |
| Strings.OnlyNumbersExample | String.php:101-103 | "R$ 9,90" gives "990" |
| Strings.SwapSeparators | String.php:131 | `strtr` with `[',' => '.', '.' => ',']`: commas and dots are exchanged in one pass, everything else is kept |
| Strings.SwapSeparatorsInvolution | String.php:131 | swapping the separators twice gives the text back |
| Strings.LooselyTrue | String.php:123 | `$dot == true` for a `strpos` result: found at a position other than 0 (a predicate; `Strings.LeadingDotIsSwapped` shows its effect) |
| Strings.LooselyGreater | String.php:128 | `$dot > $comma` for a found dot: the position order when the comma is found, and against `false` a comparison of booleans, true exactly when the dot is not at 0 |
| Strings.NumberBr2Eng | String.php:119-133 | `numberBr2Eng` as written: only separators change, and a separator stays a separator |
| Strings.NumberBr2EngCases | String.php:119-133 | no separator: unchanged; only dots, not at position 0: unchanged; only commas: commas become dots; first dot after first comma: unchanged; first dot before first comma: separators swapped |
| Strings.LeadingDotIsSwapped | String.php:123 | as written, a comma-free text starting with a dot fails `$dot == true` and has its dots turned into commas |
| Strings.NumberBr2EngBrazilian | String.php:127-131 | "1.234,5" becomes "1,234.5" |
| Strings.NumberBr2EngEnglish | String.php:123-129 | "1234.56" and "1,234.56" are returned unchanged |
| Strings.NumberBr2EngCommaOnly | String.php:125-126 | "1234,56" becomes "1234.56" |
| Strings.NumberBr2EngLeadingDot | String.php:123 | as written, ".5" becomes ",5" |
| Strings.NumberBr2EngIntended | String.php:123 | the corrected conversion: only separators change, and a text without a comma is always returned unchanged |
| Strings.IntendedAgreesOtherwise | String.php:119-133 | the corrected and the as-written conversion agree exactly on the texts that are not comma-free and dot-led |
| Accents.EntityNameInjective | String.php:53-68 | two entity names are equal only for the same letter and accent |
| Accents.ReferencesPrefixFree | String.php:70 | two references whose names hold no `;` and that both start a text are the same reference, so at most one alternative of a pattern matches at a position |
| Accents.EntityGroupsLetters | String.php:52-69 | every pattern's replacement is a letter |
| Accents.RemoveAccents | String.php:50-71 | `removeAccents` with `$comes_with_entities` set: the 16 passes of String.php:53-68 in order over the given text (a definition; `Accents.RemoveAccentsPieces`, `Accents.RemoveAccentsPlainText` and `Accents.RemoveAccentsListedEntity` state its effect) |
| Accents.MatchAtFinds | String.php:53-68 | the alternatives of a pattern are tried in order; one is found exactly when some alternative starts the text, and the one found does start it |
| Accents.ReplacePass | String.php:70 | one `preg_replace` pass of one pattern: scanning from the left, each match becomes the letter and scanning resumes after it (a definition; `Accents.PassPieces` states what it does on well-formed text) |
| Accents.ApplyGroups | String.php:70 | `preg_replace` with arrays of patterns and replacements: one pass per pattern, in order, each on the previous result (a definition; `Accents.ApplyPieces` states its effect) |
| Accents.PassStep | String.php:70 | a pass copies a first character that is not `&` followed by the pass's letter |
| Accents.PassPlain | String.php:70 | a pass copies a prefix without `&` |
| Accents.PassUntouched | String.php:70 | a pass leaves unchanged a text in which no `&` is followed by its letter |
| Accents.PassRef | String.php:70 | a pass replaces a leading well-formed reference by its letter exactly when the reference belongs to the pattern, and then continues after it |
| Accents.PassPieces | String.php:70 | on a well-formed text, a pass replaces exactly the references of its pattern, piece by piece, and the result is well-formed again |
| Accents.ApplyUntouched | String.php:70 | passes whose letters no `&` in the text is followed by leave it unchanged |
| Accents.StrippedAfterPass | String.php:70 | one pass followed by stripping with the remaining patterns is stripping with all of them |
| Accents.ApplyPieces | String.php:70 | on a well-formed text, the passes of a list of letter patterns replace every listed reference by its letter and keep everything else |
| Accents.RemoveAccentsPieces | String.php:50-71 | `removeAccents` on a well-formed text: each listed accented-letter entity becomes its bare letter, every other piece is kept |
| Accents.RemoveAccentsPlainText | String.php:50-71 | a text without `&` is returned unchanged |
| Accents.RemoveAccentsListedEntity | String.php:52-70 | every listed entity followed by text without `&` becomes its letter followed by that text, as in "&aacute;rvore" to "arvore" |
| Accents.EntityOf | String.php:81-90 | the forward table: each listed accented character maps to an ASCII letter and an accent, and every listed character is non-ASCII |
| Accents.AccentedChar | String.php:91 | the flipped table: it only answers for ASCII letters |
| Accents.TableFlips | String.php:81-91 | the two tables are inverse: a character maps to an entity exactly when that entity maps back to the character |
| Accents.LeadingEntity | String.php:93 | the entity `strtr` replaces at the start of a text, if any: it starts the text and is in the table; a text not starting with `&` has none |
| Accents.LeadingEntityFinds | String.php:93 | whenever a table entity starts the text, it is the one found, so the order in which `strtr` tries the keys does not matter |
| Accents.EncodeChar | String.php:82-93 | one step of the forward `strtr`: a table character becomes its entity `&` name `;`, every other character stays as it is |
| Accents.AccentsToEntities | String.php:93 | `strtr` forwards: the result is never shorter than the input |
| Accents.EntitiesToAccents | String.php:91-93 | `strtr` with the flipped table: the result is never longer, and a text without `&` is unchanged |
| Accents.Accents2Entities | String.php:80-94 | `accents2entities`: `$opposite` selects the flipped table |
| Accents.Accents2EntitiesRoundTrip | String.php:80-94 | `accents2entities($s, true)` undoes `accents2entities($s)` on every text holding no table entity, and `accents2entities($s)` undoes `accents2entities($s, true)` on every text holding no table character |
| Accents.AccentsToEntitiesConcat | String.php:93 | the forward translation acts on each part of a concatenation separately |
| Accents.AccentsToEntitiesRemovesAccents | String.php:80-93 | no listed accented character survives the forward direction, and a text without them is unchanged |
| Accents.NoAmpersandNoTableEntity | String.php:82-89 | a text without `&` contains no entity of the table |
| Accents.EncodedPrefix | String.php:93 | a stretch without `&` at the start of an encoded text was already at the start of the text, because encoding only inserts whole entities, which begin with `&` |
| Accents.EntityAfterAmpersand | String.php:91-93 | a table entity that starts an `&` followed by an encoded text already started the text before encoding |
| Accents.DecodeAmpersand | String.php:91-93 | an `&` that starts no table entity before encoding starts none afterwards, and decoding keeps it |
| Accents.DecodeEncoded | String.php:91-93 | the entity the forward table gives a character decodes back to that character, whatever follows: this is what makes the flipped `strtr` actually decode |
| Accents.AccentsRoundTrip | String.php:80-93 | translating a text in which no entity of the table occurs to entities and back gives the text again; other references and lone `&` may occur (as in "P&D ç") |
| Accents.EntitiesRoundTrip | String.php:80-93 | translating a text without listed accented characters to accents and back gives the text again |
| Accents.CedillaExample | String.php:89 | "ç" becomes "&ccedil;", and the opposite direction turns it back |

## Left out

- `slugify` is not modelled. It needs Unicode character classes and `iconv` transliteration.
- `removeAccents` with `$comes_with_entities` false is not modelled. That path first runs `htmlentities` in a given input encoding, which is an encoding library call.
- The `$input_encoding` parameters are not modelled, for the same reason.
- Arrays.Remove: compares keys exactly, after casting a listed numeric string as `Arrays.ListedKey` does. The whitelist loop at Arrays.php:78 uses the loose `==` of `in_array` instead. That also equates an integer key with a non-canonical numeric string such as "05" or "5.0", and two numeric strings of equal value, such as "05" and "5". Before PHP 8 it also equates 0 with every non-numeric string, so whitelisting "name" keeps the key 0. Listed values other than integers and strings (null, booleans, floats) are not modelled.
- Arrays.Clear: reads the default null `$whats_empty` as "no callback", which is what `array_filter` does from PHP 8.0 on. Before PHP 8.0 an explicit null callback makes `array_filter` warn and return NULL, and `array_merge(NULL)` at Arrays.php:34 returns NULL as well, so `clear($a)` with its defaults returns null there. Only the PHP 8 reading is modelled.
- Accents.RemoveAccents: has no contract of its own. Its properties are stated only for well-formed texts, where every `&` opens a reference whose name holds no `&` or `;`. On other texts the sequential passes can combine partial entities, as `&Ogr&aacute;ve;` shows; the definition reproduces this, but no lemma describes it.
- Text is modelled as a sequence of characters, not of UTF-8 bytes. This matters for `strtr` with the multi-byte keys of `accents2entities`, and for `preg_replace` without the `u` flag.
- Arrays.KeyedComparator.Compare: the order PHP's `<` gives mixed-type values is a parameter (`less`). PHP's loose `==` between the keyed values is modelled as value equality.
- Arrays.CompareIsComparator: is proved only for a strict total order. PHP's loose comparisons are not one in general.
- `usort` itself is not modelled; only the comparator is.
- Arrays.Matches: the loose `==` of a non-strict `array_keys` is a parameter (`loose`). PHP's type-juggling rules are not modelled.
- Floating-point values and objects are not among the modelled values.
- Arrays.KeyOf: ignores the `PHP_INT_MAX` bound. A decimal string too large for a 64-bit integer stays a string key in PHP but becomes an integer key here.
- The warning PHP emits when `compare` reads a missing key is not modelled; the read yields null as in PHP.
- The callback of `clear` is a total function on values. A callback that throws or has side effects is not modelled.
- `clear`, `whitelist` and `blacklist` receive their array by value. They are modelled as functions or methods that return a new sequence. Only `unsetByValue`, which takes its array by reference, updates state in place.
- The `is_array($keys)` test in `unsetByValue` always holds, so it is not modelled.

## Findings

| source | as written | input that shows it | evidently intended | confidence | as-written member | corrected member |
|---|---|---|---|---|---|---|
| String.php:123 | `$dot == true` is false when the first dot is at position 0, so a comma-free text starting with a dot skips the "only a dot" branch and has its separators swapped | ".5" becomes ",5" | per the comment "none of both or only a dot", a text without a comma is returned unchanged | not executed | Strings.LeadingDotIsSwapped | Strings.NumberBr2EngIntended |
