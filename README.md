# typogen: a verified model of Typofinder's typo engine

Typofinder takes one domain name and produces the look-alike domains that a
squatter might register. Its engine is the `typogen` class in
`TypoMagic/typogen.py`. This project models that engine in Dafny and proves
what each part of it produces.

The engine has four parts:

- **Generators.** Each takes the host and produces a list of candidates:
  - a missing, doubled or transposed character;
  - a bit flip of one character;
  - a neighbouring key substituted, added before or after, or replacing a whole run of one character;
  - a country code or subdomain put in front, or a dot put in;
  - confusable and homoglyph substitutions, encoded with IDNA.
- **Validator** (`is_domain_valid`).
- **Loaders.** They build the tables the generators use:
  - the TLD list;
  - a keyboard layout;
  - the additional homoglyph table;
  - the symmetric confusable table.
- **Controller** (`generatetyposv2`). It runs the enabled generators and collapses their output to a set. It then adds the host, keeps what the validator accepts, decodes each name from IDNA and sorts the result.

Modules, one per part of the engine:

| module | holds |
|---|---|
| `Lexical` | missing, duplicate and transposed characters |
| `BitFlip` | `bitflipbyte`, `bitflipstring` |
| `Keyboard` | miskeyed substitution, addition and sequence typos |
| `Doppelgangers` | country-code, subdomain, extra-dot |
| `Homoglyphs` | confusable and additional-homoglyph substitutions |
| `Validator` | `is_domain_valid` |
| `Tables` | the loaders |
| `Controller` | `typogen` as a class holding its two fields, with `generatetyposv2` |

Supporting modules:

- `Text`: Python's `strip`, `split`, `find` and `rfind`.
- `Edits`: delete, insert and substitute at a position.
- `Lists`: concatenation of per-position blocks.
- `Sorting`: `sorted` on strings.
- `Idna`: the codec.
- `Bytes`: small byte constants.
- `Wrappers`: `Option`.

**How the model is built.**

- **Loops.** Each generator and loader that loops in Python is a Dafny method with the same loop. It is proved equal to a specification function. Lemmas then prove what that function contains: counts, positions, lengths, membership in both directions, and inverses.
- **Exceptions.** A Python exception that ends a run is `None`:
  - an `IndexError` on a malformed line;
  - a `UnicodeError` from the codec.
- **Inputs the code reads from outside.** The model takes these as parameters:
  - files are given as the lines their iteration yields, newline kept;
  - the IDNA codec is a pair of functions `string -> Option<string>`;
  - `str.lower` is a function `string -> string`.

Behaviour of the code worth knowing:

- **Confusable table.** `loadconfusables` has no test for a pair whose two sides are equal; such a pair is linked like any other (`TypoMagic/typogen.py:127-135`).
- **IDNA encoding failure.** The homoglyph generators encode each candidate without a `try` (`TypoMagic/typogen.py:272`, `291`). A `UnicodeError` there ends the whole run rather than skipping the candidate, so the encoded results and the final result are `Option`s.
- **Empty host.** `generatetyposv2` does not check for an empty host; the empty name simply fails the validator.
- **Trailing newline.** Python's `re.match('^[a-z0-9.-]+$', d)` also accepts a name ending in one newline (`Validator.MatchesHostPattern`). When `lower` adds no newline, no loaded TLD ends in one, so such a name is still rejected at the TLD step (`Validator.IsDomainValidIff`).
- **"ab.com" at the quick intensity.** With only "com" listed, the survivors are "a.com", "b.com", "aab.com", "abb.com" and the host; the doubled-letter names "aab.com" and "abb.com" are kept (`Controller.QuickScenario`).
- **TLD swap without a dot.** When the host has no dot, `rfind` returns -1 and the swap keeps `strHost[:-1]`, so the last character is lost (`Controller.TldSwapWithoutDot`).
- **Bit flip of a non-ASCII character.** The flip works on the first UTF-8 byte and turns the result back into a character with `chr`. For a non-ASCII character this can give the character itself: 'ã' has lead byte 0xC3, and flipping bit 5 gives 0xE3, which is 'ã' again (`BitFlip.FlipNonAsciiCanReturnInput`).
- **Missing second field.** A line of the keyboard, homoglyph or country file without a second field raises `IndexError` (`None` in the model).

## Model

| member | source | states |
|---|---|---|
| Text.RStripMeaning | TypoMagic/typogen.py:31 | `rstrip` removes exactly the trailing whitespace: the result is a prefix, does not end in whitespace, and everything cut was whitespace |
| Text.LStripMeaning | TypoMagic/typogen.py:30 | `lstrip` removes exactly the leading whitespace: the result is a suffix, does not start with whitespace, and everything cut was whitespace |
| Text.JoinSplit | TypoMagic/typogen.py:45 | joining the fields of `split(sep)` with `sep` gives back the line |
| Text.SplitJoin | TypoMagic/typogen.py:59 | splitting a join of separator-free fields gives back the fields |
| Text.SplitMeaning | TypoMagic/typogen.py:62 | no field of `split(sep)` holds `sep` |
| Text.Find | TypoMagic/typogen.py:268 | `find(sub, from)` is -1 or an occurrence at or after `from`, and no occurrence lies between `from` and it |
| Text.ContainsIff | TypoMagic/typogen.py:145-148 | `sub in s` holds exactly when `sub` occurs at some position |
| Text.RFind | TypoMagic/typogen.py:142 | `rfind(c)` is -1 or a position holding `c`, with no `c` after it |
| Text.Repeat | TypoMagic/typogen.py:334 | a one-character text repeated n times has length n and that character everywhere |
| Edits.DeleteInverse | TypoMagic/typogen.py:224 | deleting position i shortens the text by one, and putting `s[i]` back restores it |
| Edits.InsertInverse | TypoMagic/typogen.py:238 | inserting one character at i lengthens by one, puts it at i, and deleting i restores the text |
| Edits.SubstituteOneChar | TypoMagic/typogen.py:255 | replacing position i by one character keeps the length and every other position |
| Edits.SubstitutionsMember | TypoMagic/typogen.py:252-255 | a candidate is the host with one position whose character is a key replaced by one of that key's entries, and every such text is a candidate |
| Edits.SubstitutionsKeepLength | TypoMagic/typogen.py:252-255 | with single-character entries, every candidate agrees with the host everywhere but one position |
| Lexical.GenerateMissingCharacterTypos | TypoMagic/typogen.py:218-227 | the loop builds exactly the list of one-character deletions, in position order |
| Lexical.MissingCharactersShape | TypoMagic/typogen.py:218-227 | there are \|s\| candidates; the i-th is one shorter and is s with position i deleted (re-inserting `s[i]` restores s); none for the empty host |
| Lexical.GenerateDuplicateCharacterTypos | TypoMagic/typogen.py:230-242 | the loop builds exactly the list of one-character doublings of non-'.' positions, in position order |
| Lexical.DuplicateCharactersCount | TypoMagic/typogen.py:235-241 | the first n positions give one candidate per non-'.' character among them |
| Lexical.DuplicateCharactersMember | TypoMagic/typogen.py:235-241 | a candidate is the host with one non-'.' character doubled in place, and every such text is a candidate |
| Lexical.DuplicateCharactersShape | TypoMagic/typogen.py:230-242 | one candidate per non-'.' position, each one longer than the host and equal to it once the doubled position is deleted |
| Lexical.GenerateTransposedCharacterTypos | TypoMagic/typogen.py:339-343 | the loop builds exactly the list of adjacent swaps, in position order |
| Lexical.SwapShape | TypoMagic/typogen.py:342 | the swap exchanges positions i and i+1, keeps length, multiset and every other position, and swapping again restores the text |
| Lexical.TranspositionsShape | TypoMagic/typogen.py:339-343 | max(\|s\|-1, 0) candidates, the i-th swapping i and i+1, each with the host's length and multiset of characters |
| BitFlip.BitFlipByte | TypoMagic/typogen.py:154-167 | the mask loop returns 7 values, the k-th being the byte XOR 2^k |
| BitFlip.FlipOneLowBit | TypoMagic/typogen.py:164-166 | each flip differs from the byte in exactly bit k of bits 0..6, never equals it, keeps bit 7 and is undone by flipping again |
| BitFlip.Utf8LeadByte | TypoMagic/typogen.py:211 | the first UTF-8 byte is below 0x80 exactly for ASCII characters, and then equals the code point |
| BitFlip.FlipAscii | TypoMagic/typogen.py:211-213 | a flipped ASCII character is another ASCII character |
| BitFlip.FlipNonAsciiCanReturnInput | TypoMagic/typogen.py:211-213 | flipping bit 5 of the lead byte of 'ã' gives 'ã' back |
| BitFlip.BitFlipString | TypoMagic/typogen.py:201-215 | the nested loops build exactly the per-position blocks of seven flips, in order |
| BitFlip.BitFlipsShape | TypoMagic/typogen.py:201-215 | 7·\|s\| candidates; candidate 7i+k is the host with position i replaced by its k-th flip, agrees with the host elsewhere, and differs at i when that character is ASCII |
| Keyboard.GenerateMiskeyedTypos | TypoMagic/typogen.py:245-256 | the loop builds exactly the neighbour substitutions, position by position in adjacency-list order |
| Keyboard.GenerateMiskeyedAdditionTypos | TypoMagic/typogen.py:296-308 | the loop builds exactly the neighbour insertions, position by position in adjacency-list order |
| Keyboard.AdditionBlockShape | TypoMagic/typogen.py:303-307 | a key position gives two candidates per neighbour: inserted after the position, then before it |
| Keyboard.AdditionsMember | TypoMagic/typogen.py:296-308 | a candidate is a neighbour of some key position inserted right after or right before it, and every such text is a candidate |
| Keyboard.RunEnd | TypoMagic/typogen.py:322-325 | the inner loop stops at the end of the maximal run of the character at the start |
| Keyboard.ScanRun | TypoMagic/typogen.py:320-328 | the inner loop leaves the index on the run's last character and counts the run's length |
| Keyboard.AppendRunBlock | TypoMagic/typogen.py:331-334 | a run of two or more of a key character appends one run replacement per neighbour, and nothing otherwise |
| Keyboard.GenerateMiskeyedSequenceTypos | TypoMagic/typogen.py:311-336 | the run loop builds exactly the run replacements, run by run in adjacency-list order |
| Keyboard.SequenceTyposStep | TypoMagic/typogen.py:318-334 | from the start of a run, the output is that run's block followed by the output from the run's end |
| Keyboard.MaximalRunEnd | TypoMagic/typogen.py:322-325 | a maximal run starting at a ends where the inner loop stops |
| Keyboard.SequenceTyposSound | TypoMagic/typogen.py:318-336 | every candidate replaces one maximal run of length at least 2 of a key character by one neighbour repeated run-length times |
| Keyboard.SequenceTyposComplete | TypoMagic/typogen.py:318-336 | every such run replacement is a candidate |
| Keyboard.SequenceTyposMember | TypoMagic/typogen.py:318-336 | candidates are exactly the replacements of maximal runs of length at least 2 of key characters |
| Keyboard.SequenceTypoLength | TypoMagic/typogen.py:334 | with single-character neighbours every run replacement keeps the host's length |
| Doppelgangers.CountryCodeBlock | TypoMagic/typogen.py:174-179 | a line fails exactly when it is not a comment and has no ';' |
| Doppelgangers.GenerateCountryCodeDoppelgangers | TypoMagic/typogen.py:170-180 | the loop builds the two code-prefixed names per data line, or fails at the first line without ';' |
| Doppelgangers.CountryCodeStep | TypoMagic/typogen.py:173-179 | one more line extends the result by that line's block, or fails |
| Doppelgangers.BlockShape | TypoMagic/typogen.py:174-179 | a comment yields nothing; a data line yields two names, both ending in the host |
| Doppelgangers.CountryCodeFails | TypoMagic/typogen.py:175-179 | a line without ';' makes the whole generator fail |
| Doppelgangers.CountryCodeSucceeds | TypoMagic/typogen.py:173-180 | without such a line there are two names per data line, each ending in the host |
| Doppelgangers.CountryCodeShape | TypoMagic/typogen.py:170-180 | fails exactly when some line is bad; otherwise two names per data line, each ending in the host |
| Doppelgangers.GenerateSubdomainDoppelgangers | TypoMagic/typogen.py:183-188 | the loop builds each stripped word in front of the host, in order |
| Doppelgangers.SubdomainShape | TypoMagic/typogen.py:183-188 | one name per word, each ending in the host |
| Doppelgangers.GenerateExtraDotDoppelgangers | TypoMagic/typogen.py:191-198 | the loop builds, per position, the dot in place of the character and then the dot before it |
| Doppelgangers.ExtraDotsShape | TypoMagic/typogen.py:191-198 | 2·\|s\| names; name 2i replaces position i by '.', name 2i+1 inserts '.' at i and deleting it restores the host |
| Homoglyphs.OccurrencesSound | TypoMagic/typogen.py:266-275 | the scan visits increasing, non-overlapping occurrences of the key, each one where `find` from the end of the previous one lands |
| Homoglyphs.OccurrencesCover | TypoMagic/typogen.py:266-275 | every occurrence of the key overlaps a visited one |
| Homoglyphs.ScanStep | TypoMagic/typogen.py:268-273 | each `find` hit is the next visited occurrence, and the scan resumes after it |
| Homoglyphs.ScanEnd | TypoMagic/typogen.py:268-275 | when `find` returns -1 every occurrence has been visited |
| Homoglyphs.EncodeReplacements | TypoMagic/typogen.py:270-272 | at one occurrence, fails exactly when some replacement does not encode; otherwise yields the encodings of exactly the replacements there |
| Homoglyphs.EncodeKeyCandidates | TypoMagic/typogen.py:266-275 | for one key, fails exactly when some replacement at a visited occurrence does not encode; otherwise yields the encodings of exactly those replacements |
| Homoglyphs.GenerateHomoglyphConfusablesTypos | TypoMagic/typogen.py:259-277 | fails exactly when some substitution does not encode; otherwise yields exactly the encodings of the substitutions at visited occurrences |
| Homoglyphs.ConfusableUndo | TypoMagic/typogen.py:265-273 | on a symmetric table every substitution can be undone: replacing the replacement by the key again gives the host |
| Homoglyphs.SpliceUndo | TypoMagic/typogen.py:271 | replacing a key occurrence and then replacing the replacement back restores the host |
| Homoglyphs.GenerateAdditionalHomoglyphTypos | TypoMagic/typogen.py:280-293 | the loops encode exactly the single-position substitutions from the table, in order, failing at the first that does not encode |
| Homoglyphs.EncodeSubstitutionsAt | TypoMagic/typogen.py:288-291 | one position extends the encoded list by its block, or the whole generator fails |
| Homoglyphs.SubstitutionFails | TypoMagic/typogen.py:291 | one substitution that does not encode makes the whole generator fail |
| Idna.EncodeAllMeaning | TypoMagic/typogen.py:291 | a list encodes exactly when each member does, and then member by member in order |
| Idna.EncodeSet | TypoMagic/typogen.py:272 | a set of names encodes exactly when each does, into exactly their encodings |
| Tables.LoadTlds | TypoMagic/typogen.py:28-31 | the loop keeps the stripped, lower-cased non-comment lines, in order |
| Tables.TldEntriesMember | TypoMagic/typogen.py:29-31 | a TLD is listed exactly when some non-comment line gives it |
| Tables.TldEntriesStripped | TypoMagic/typogen.py:31 | no loaded TLD ends in a newline |
| Tables.LoadKeyboard | TypoMagic/typogen.py:37-51 | the loop builds the layout line by line, or fails at a line without a comma |
| Tables.KeyboardFails | TypoMagic/typogen.py:45-47 | a line without a second field makes the loader fail |
| Tables.KeyboardLoads | TypoMagic/typogen.py:44-49 | the loader succeeds exactly when every line has two fields |
| Tables.KeyboardKeys | TypoMagic/typogen.py:44-49 | the keys are exactly the first fields, each mapped to the non-empty list of its second fields in file order |
| Tables.AdjacentKeysEmpty | TypoMagic/typogen.py:46-49 | a key that starts no line has no neighbours |
| Tables.LoadAdditionalHomoglyphs | TypoMagic/typogen.py:54-74 | the loop builds the table line by line, or fails at a data line without a comma |
| Tables.HomoglyphTableFails | TypoMagic/typogen.py:58-62 | a data line without a second field makes the loader fail |
| Tables.HomoglyphTableLoads | TypoMagic/typogen.py:57-72 | the loader succeeds exactly when no data line lacks a second field |
| Tables.CaseFilteredMember | TypoMagic/typogen.py:62 | a glyph survives the first filter exactly when its lower-case form is not the key |
| Tables.RoundTripFilteredMember | TypoMagic/typogen.py:64-71 | a glyph survives the second filter exactly when it passes the IDNA round trip |
| Tables.KeptGlyphsMember | TypoMagic/typogen.py:62-71 | a line keeps exactly the glyphs that differ from the key once lower-cased and pass the round trip |
| Tables.HomoglyphTableKeys | TypoMagic/typogen.py:57-73 | the keys of a loaded table are exactly the keys its non-comment lines name |
| Tables.HomoglyphTableLastLine | TypoMagic/typogen.py:57-73 | each key maps to the glyphs kept from the last line naming it; a later line replaces an earlier one |
| Tables.HomoglyphTableMeaning | TypoMagic/typogen.py:57-73 | a glyph is under a key exactly when it is a glyph of the last line naming the key, differs from the key once lower-cased and survives the round trip |
| Tables.HomoglyphTableFiltered | TypoMagic/typogen.py:57-72 | every glyph in the table passes both filters |
| Tables.LoadConfusables | TypoMagic/typogen.py:77-135 | the loop builds the table pair by pair |
| Tables.LinkMember | TypoMagic/typogen.py:128-135 | adding b to a's entry adds exactly the pair (a, b) and the key a |
| Tables.AcceptPair | TypoMagic/typogen.py:127-135 | linking an accepted pair both ways keeps the table equal to the accepted pairs read both ways |
| Tables.SkipPair | TypoMagic/typogen.py:92-125 | skipping a rejected, failing or already-present pair keeps that and keeps the rejection set made of failing sequences |
| Tables.AddPairLoaded | TypoMagic/typogen.py:86-135 | one loop step keeps the table equal to the accepted pairs read both ways |
| Tables.BuildConfusablesLoaded | TypoMagic/typogen.py:84-135 | after all pairs, the table is exactly the accepted pairs read both ways, with non-empty entries |
| Tables.ConfusablesMeaning | TypoMagic/typogen.py:92-135 | the table is exactly the accepted pairs both ways; it is symmetric; every key and value passes the round trip; a rejected sequence fails the round trip and is never a key; keys are non-empty |
| Validator.ContainsPair | TypoMagic/typogen.py:145-148 | a two-character needle occurs exactly where its two characters stand side by side |
| Validator.TopLevelLabelStart | TypoMagic/typogen.py:142 | `d[d.rfind(".") + 1:]` is the unique dot-free suffix that follows a dot or starts the name |
| Validator.IsDomainValidIff | TypoMagic/typogen.py:137-151 | when no TLD ends in a newline, valid exactly when non-empty, all `[a-z0-9.-]`, the text after the last dot is a listed TLD, none of ".-", "-.", "..", and no leading '-' or '.' |
| Validator.LabelAfterDot | TypoMagic/typogen.py:142 | after a dot, a dot-free text is the top-level label |
| Validator.SimpleDomainValid | TypoMagic/typogen.py:137-151 | a letters name, a dot and a listed letters TLD pass, with that TLD as top-level label |
| Sorting.LexLeTotal | TypoMagic/typogen.py:418 | string order is total |
| Sorting.LexLeTransitive | TypoMagic/typogen.py:418 | string order is transitive |
| Sorting.LexLeAntisymmetric | TypoMagic/typogen.py:418 | string order is antisymmetric |
| Sorting.Insert | TypoMagic/typogen.py:418 | inserting adds exactly one copy of the element |
| Sorting.InsertSorted | TypoMagic/typogen.py:418 | inserting into a sorted list keeps it sorted |
| Sorting.SortStrings | TypoMagic/typogen.py:418 | `sorted` returns a sorted permutation of its input |
| Sorting.DistinctPermutation | TypoMagic/typogen.py:418 | a permutation of a duplicate-free list is duplicate-free |
| Controller.TldSwapsShape | TypoMagic/typogen.py:376-381 | with a dot in the host, one swap per TLD, each the host up to its last dot followed by that TLD, which is its top-level label |
| Controller.TldSwapWithoutDot | TypoMagic/typogen.py:377-380 | for "localhost" and "com" the swap is "localhos.com" |
| Controller.TypoGen.constructor | TypoMagic/typogen.py:24-34 | loads the TLD list and the confusable table, whose keys are non-empty |
| Controller.TypoGen.GenerateTldSwapTypos | TypoMagic/typogen.py:376-381 | the loop builds the TLD swaps in list order |
| Controller.TypoGen.CollectTypoTiers | TypoMagic/typogen.py:363-374 | collects exactly the enabled tiers, failing only when the keyboard file does |
| Controller.TypoGen.CollectHomoglyphs | TypoMagic/typogen.py:383-385 | collects exactly both homoglyph generators' output, failing when either fails |
| Controller.TypoGen.CollectDoppelgangers | TypoMagic/typogen.py:387-391 | collects exactly the subdomain and extra-dot names |
| Controller.TypoGen.CollectEarly | TypoMagic/typogen.py:360-381 | collects exactly the bit flips, typo tiers and TLD swaps that are enabled |
| Controller.TypoGen.CollectCandidates | TypoMagic/typogen.py:358-391 | `set(lstTypos)` is exactly the union of the enabled groups, failing exactly when an enabled group does |
| Controller.TypoGen.RemoveInvalid | TypoMagic/typogen.py:408-411 | removing over a copy leaves exactly the names the validator accepts |
| Controller.TypoGen.DecodeAll | TypoMagic/typogen.py:418 | fails exactly when some name does not decode; otherwise one decoded text per name, exactly the images, duplicate-free when decoding is one-to-one |
| Controller.DecodedInOrder | TypoMagic/typogen.py:418 | decoding every name in some order gives exactly the images of the names |
| Controller.SortedKeepsMembers | TypoMagic/typogen.py:418 | sorting keeps the length and the members |
| Controller.TypoGen.GenerateTypos | TypoMagic/typogen.py:345-418 | fails exactly when a generator or decoding fails; otherwise sorted, one entry per surviving name, exactly the decoded survivors, duplicate-free when decoding is one-to-one on them |
| Controller.IntensityTiers | TypoMagic/typogen.py:368-374 | only the thresholds 0 and 50 matter |
| Controller.IntensityMonotone | TypoMagic/typogen.py:363-374 | the tiers fail exactly when the intensity is above 0 and the keyboard fails; a higher intensity never loses a candidate; the quick tier is always there |
| Controller.ValidIsAscii | TypoMagic/typogen.py:139 | a name the validator accepts is ASCII |
| Controller.HostSurvives | TypoMagic/typogen.py:393-411 | the host survives exactly when valid; every survivor is a candidate or the host and is valid |
| Controller.HostDecodesToItself | TypoMagic/typogen.py:396-418 | a valid host without an ACE label decodes to itself |
| Controller.SurvivorsWellFormed | TypoMagic/typogen.py:408-411 | with the loaded TLD list every survivor is a well-formed domain |
| Controller.NothingEnabled | TypoMagic/typogen.py:358-399 | with every switch off there are no candidates, and only the host survives, when valid |
| Controller.HostInResult | TypoMagic/typogen.py:396-418 | a valid host without an ACE label is in the returned list whenever the run succeeds, under a codec that leaves plain ASCII alone |
| Controller.NothingEnabledResult | TypoMagic/typogen.py:358-418 | with every switch off, a valid host without an ACE label comes back as the one-element list holding itself |
| Controller.AllSurvive | TypoMagic/typogen.py:393-411 | when every candidate and the host are valid, the survivors are exactly the candidates plus the host |
| Controller.TldSwapScenario | TypoMagic/typogen.py:376-411 | "example.com" with the TLD list ["com", "net"] and only the TLD swap on survives as exactly "example.com" and "example.net" |
| Controller.MiskeyScenario | TypoMagic/typogen.py:245-256 | with the layout {'a': ['s', 'q']} the miskeyed candidates of "ab.com" are "sb.com" then "qb.com" |
| Controller.MissingExample | TypoMagic/typogen.py:218-227 | the missing-character candidates of "ab.com", in order |
| Controller.DuplicateExample | TypoMagic/typogen.py:230-242 | the duplicate-character candidates of "ab.com", in order |
| Controller.QuickCandidates | TypoMagic/typogen.py:365-366 | the eleven quick candidates of "ab.com" |
| Controller.Unlisted | TypoMagic/typogen.py:142-143 | a name whose dot-free last label is not listed fails |
| Controller.QuickKeptValid | TypoMagic/typogen.py:137-151 | "a.com", "b.com", "aab.com", "abb.com" and "ab.com" pass the validator with only "com" listed |
| Controller.QuickDroppedInvalid | TypoMagic/typogen.py:137-151 | the seven other quick names of "ab.com" fail the validator with only "com" listed |
| Controller.SurvivorsSplit | TypoMagic/typogen.py:393-411 | when the candidates and the host split into accepted and rejected names, exactly the accepted ones survive |
| Controller.QuickScenario | TypoMagic/typogen.py:363-411 | for "ab.com" at intensity 0 with only "com" listed, the survivors are exactly "a.com", "aab.com", "ab.com", "abb.com" and "b.com" |

## Left out

- `TypoMagic/hostinfo.py`, which does DNS, GeoIP and graph-database work, is not part of this model.
- The neo4j `graph_db` calls and the module-level connection (`TypoMagic/typogen.py:19`, `401-416`) are storage side effects and are left out. So are the progress `print` calls (`TypoMagic/typogen.py:32-34`), which are output only.
- Opening and reading files (`TypoMagic/typogen.py:28`, `43`, `56`, `83`, `172`, `185`) are left out. Each loader or generator takes the lines the file yields.
- The confusables file is taken already parsed into (code point, code-point sequence) pairs. Its blank and comment lines and its hex fields (`TypoMagic/typogen.py:86-98`) are not modelled.
- The IDNA codec (Nameprep, Punycode) and `str.lower` are foreign code. They are parameters, and the round trip is the predicate `Idna.RoundTrips`.
- Python's dict and set iteration order is not modelled. Results whose order depends on it are stated as sets:
  - the confusable substitutions;
  - `set(lstTypos)`;
  - the order `DecodeAll` visits names in.
- Homoglyphs.GenerateHomoglyphConfusablesTypos: its result is stated as a set of encoded names. The source's list is in dict and set iteration order, which the model does not fix.
- Controller.TypoGen.GenerateTypos: promises a duplicate-free result only when decoding is one-to-one on the survivors. Two ACE names that decode to the same text appear twice in the source (the `sorted(...)` list is not a set). The validator applies to the ASCII survivors, not to their decoded forms.
- BitFlip.BitFlipsShape: promises a changed position only for ASCII characters. For a non-ASCII character, `chr` of the flipped first UTF-8 byte can be the character itself (`BitFlip.FlipNonAsciiCanReturnInput`).
- The country-code generator is modelled, but the controller does not call it, because the source has that call commented out (`TypoMagic/typogen.py:389`).
- The source reloads the keyboard file for each keyboard generator. The model loads it once per run; the result is the same, since the file is the same.
- Type conversions at the byte level (`character.encode("UTF-8")[0]`, `chr`) are modelled through the code point. Only the lead byte is computed, which is all the source uses.
