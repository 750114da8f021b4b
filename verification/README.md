# Verified models for hddtemp and its bundled gettext library

hddtemp carries a copy of GNU gettext's runtime in `intl/`. This project models the parts of both
that decide something hard, in Dafny, and proves what they are for. `dafny verify dfyconfig.toml`
checks everything.

**Plural expressions** (`Plural*.dfy`). The rule behind `ngettext` is compiled by a Bison parser.
`PluralParser` has its packed tables and its loop over growing arrays; `PluralAutomaton` is the
automaton that the tables are shown to encode; `PluralCompleteness`, `PluralSoundness` and
`PluralPrecedence` relate it to derivations by the twelve rules with the precedences of C
(section 6.5 of ISO C 99); `PluralLexer` and `PluralText` deal with the text, and `PluralTheorems`
puts it all together. `PluralExp` evaluates the tree, `PluralMeaning` says over the integers what that
comes to, and `PluralRules` follows a rule of a catalogue from its text to its forms.

**Message catalogues** (`HashString`, `Probing`, `Catalog`, `Loader`, `Headers`, `Bindings`, `Caches`,
`Variants`, `Behaviour`). Double hashing over a prime table size, the two passes that lay out the
system-dependent strings, the augmented hash table, the charset and the plural rule in the header
entry, and the caches of known translations and converted texts, which are compared over whole runs
with a specification that caches nothing (`Caches`) and with what earlier calls and the files determine
(`Behaviour`).

**Locale names** (`Bits`, `Submasks`, `Argz`, `L10nNames`, `L10nList`, `Codesets`, `ExplodeName`,
`RootNames`, `Successors`). The splitter that cuts a name apart in place, the sorted pool of files that inherit from
more general ones, with the sizes of its arrays and the names that are tried, and which names are found
in it again.

**Formatted output** (`XSize`, `PrintfSyntax`, `PrintfArgs`, `PrintfParse`, `PrintfOutput`,
`PrintfEngine`, `PrintfWritten`, `PrintfRebuilt`, `PrintfCalls`). The parser of format strings with its table of
argument types, and the engine that hands one rebuilt directive after the other to snprintf and grows
its buffer; how directives are written, that the rebuilt ones mean what the format says, and that
snprintf gets the arguments that the format selects
(section 7.19.6.1 of ISO C 99).

**Smaller algorithms**: relocation of installed files (`Relocatable`), the drive database read in
chunks (`Database`) and what its lines mean (`DriveLines`), and the clean-up of identification strings (`FixString`).

Code that changes things step by step is a method or a class here, with the loops and the in-place
writes of the source; each is proved against functions on values, and the lemmas are about those.
Where the source tests for a state that it aborts in, the model asserts that the state does not
arise. `Arithmetic`, `Chars`, `CStrings` and `Wrappers` hold what several modules share. An `int`
mask is a natural number with bitwise operations written out, `size_t` has 64 bits, and `unsigned
long` has 64 bits except where the width is the point.

Five things that the proofs brought to light:

- `intl/loadinfo.h:119-121` says that the normalized codeset is given only if it differs from the
  codeset. The code compares before a following `@` is overwritten (`intl/explodename.c:106-114`), so
  that with a modifier the bit is always set. The model follows the code
  (`ExplodeName.NormBitAsDescribed`, and `ExplodeName.NormBitDeviates` for an example).
- A directive can make the output buffer grow three times, not two: once for the NUL that is
  written before snprintf is called, and twice in the loop (`PrintfOutput.AtMostThreeGrowths`).
- The cut to 32 bits at the call sites is what makes the string hash the same on machines with
  different words; without it, it would be the same exactly if the last eight rounds do not carry
  (`HashString.UncutAgrees`).
- Loading the drive database does depend on the sizes of the chunks: a chunk without newline is taken
  for a line that is too long (`src/db.c:256-260`), even where no line is
  (`Database.LoadDatabase`, and `Database.SpuriousLengthError` for an example with full reads).
- A locale name that is looked up again is not always found under that name: its file gets a plus where
  the name has an at sign (`de_DE@euro`, `intl/l10nflist.c:246`), or a second codeset
  (`RootNames.FoundByName`).

## Model

| member | source | states |
|---|---|---|
| `PluralTheorems.ParsesLanguage` | intl/plural.c:233-295 | For every text: if the parser accepts, the tokens are those of a derivation that respects the precedences and the result is its tree; every derivable token string is accepted with the one tree that precedence picks out, or overflows exactly when that derivation needs more stack than YYMAXDEPTH; the parser never runs for ever |
| `PluralTheorems.ReturnCodes` | intl/plural.c:1185-1281 | The result code is 0 exactly for tokens with a derivation by precedence that fits on the stack, 2 for those whose derivation does not fit, and 1 only for tokens without derivation |
| `PluralTheorems.RoundTrip` | intl/plural.c:851-1119 | Printing any expression tree whose numbers fit, with as few brackets as possible or with all of them, and lexing and parsing the text gives the tree back, as long as the stack is deep enough, and a stack overflow otherwise |
| `PluralTheorems.ParsesWritten` | intl/plural.c:1343-1483 | The same for any placing of brackets that means the tree, any blanks between tokens, and any way to end the expression |
| `PluralTheorems.RunEnds` | intl/plural.c:758-949 | From every reachable configuration the automaton ends: it accepts, aborts or overflows |
| `PluralParser.YyParse` | intl/plural.c:674-1281 | The loop over the packed tables, with its two growing arrays, returns the result code and the tree of the automaton run on the tokens of the text |
| `PluralParser.Move` | intl/plural.c:851-1119 | One trip through the labels is one step of the automaton, on the stacks that the arrays hold |
| `PluralParser.ReduceEntries` | intl/plural.c:965-1119 | Popping a rule, its semantic action and the goto tables leave the arrays holding the reduced stack |
| `PluralParser.ShiftEntry` | intl/plural.c:930-949 | Shifting leaves the arrays holding the stack with the token on top |
| `PluralParser.SemanticAction` | intl/plural.c:1003-1080 | The action of each rule computes the value that the automaton pushes |
| `PluralParser.Relocate` | intl/plural.c:795-835 | A relocated stack holds the same states and values |
| `PluralParser.ErrorRecovery` | intl/plural.c:1185-1281 | Since no state shifts the error token, recovery unwinds the whole stack and the parse returns 1 |
| `PluralParser.NoStateShiftsError` | intl/plural.c:261-295 | No entry of the tables shifts the error token |
| `PluralParser.TablesDecode` | intl/plural.c:246-295 | yypact, yytable, yycheck and yydefact decode, for every state and token, to the shift, reduce and accept actions of the precedence automaton |
| `PluralParser.GotoDecodes` | intl/plural.c:256-295 | yypgoto, yydefgoto, yytable and yycheck decode to the goto state of every state that an expression can follow |
| `PluralAutomaton.StepKeeps` | intl/plural.c:758-1119 | Every step keeps the invariant: the states on the stack are linked, and each value has the kind its state asks for |
| `PluralAutomaton.StepDecreases` | intl/plural.c:758-1119 | Every step decreases a measure of the stack and of the unread tokens |
| `PluralAutomaton.ReduceShape` | intl/plural.c:233-254 | A stack on which a rule is complete holds exactly the right-hand side of that rule on top |
| `PluralCompleteness.Complete` | intl/plural.c:233-295 | Every derivation that respects the precedences is accepted with its tree, or overflows exactly when it needs more than the stack limit |
| `PluralCompleteness.Unambiguous` | intl/plural.c:233-295 | Two derivations of the same tokens that respect the precedences are equal, brackets included |
| `PluralSoundness.SoundFrom` | intl/plural.c:233-295 | If a run accepts, its input is the token string of a derivation that respects the precedences and the result is the tree of that derivation |
| `PluralPrecedence.ResolveKeepsTokens` | intl/plural.c:200-207 | Every derivation by rules 1 to 12 can be regrouped, without changing a token, into one that respects the precedences |
| `PluralGrammar.MinimalKeepsTree` | intl/plural.y:150-205 | The text with as few brackets as possible respects the precedences and means the tree it was printed from |
| `PluralGrammar.MinimalIsLeast` | intl/plural.y:150-205 | No derivation of the tree that respects the precedences has fewer brackets |
| `PluralGrammar.FullKeepsTree` | intl/plural.y:150-205 | So does the text with all brackets |
| `PluralLexer.YyLex` | intl/plural.c:1343-1483 | yylex returns the code, the value and the position that the specification of the next token gives |
| `PluralLexer.ReadNumber` | intl/plural.c:1366-1378 | The digit loop stops at the first character that is no digit, with the value that the specification of the token gives; PluralText.ReadsDecimal says which number that is |
| `PluralText.LexesWritten` | intl/plural.c:1343-1483 | Lexing a token string that is written down with blanks in between gives the token string back |
| `PluralText.ReadsDecimal` | intl/plural.c:1366-1378 | Reading the decimal digits of a number gives the number modulo the width of unsigned long |
| `PluralExp.EvalFits` | intl/eval-plural.h:25-108 | The value of a rule is an unsigned long, whatever wraps around |
| `PluralExp.EvalTotal` | intl/eval-plural.h:25-108 | Only a division or a remainder can keep a rule from having a value |
| `PluralMeaning.ApplyMeans` | intl/eval-plural.h:61-97 | For every operator and all operands the result is the only one that the integers allow: quotient and remainder by division with rest, sum, difference and product as the congruent unsigned long, and 1 or 0 as the integer relation holds or not; none exactly for a divisor of 0 |
| `PluralMeaning.EvalMeans` | intl/eval-plural.h:25-108 | For every tree and every n, evaluation gives exactly what the tree means over these relations, with the branch that the condition of ?: selects, the second operand of a logical operator left out where the first decides, and no value exactly if a division by zero is reached |
| `PluralRules.ParsesCustomary` | intl/plural.c:1343-1483 | The parser reads the customary spelling of every well-formed expression, with blanks around the logical operators and the signs of a condition only |
| `PluralRules.PolishForms` | intl/eval-plural.h:25-108 | The rule of Polish catalogues, from its text to its value, gives form 0 exactly for 1, form 1 exactly for numbers that end in 2, 3 or 4 but not in 12, 13 or 14, and form 2 for all others |
| `HashString.WidthIndependent` | intl/hash-string.h:28-48 | Cut to 32 bits, the hash of every string is the same for an unsigned long of 32 or of 64 bits, and it is below 2^28 |
| `HashString.HashString64` | intl/hash-string.h:28-48 | The loop computes the fold of the rounds over the string up to its NUL |
| `HashString.UncutAgrees` | intl/hash-string.h:28-48 | Without the cut the two widths give the same hash exactly if in none of the last eight rounds shift and sum exceed 32 bits |
| `HashString.UntruncatedDiffers` | intl/hash-string.h:28-48 | A string for which they do not: its 64-bit hash does not fit into 32 bits |
| `HashString.HashValue` | intl/hash-string.h:28-48 | The loop with 64-bit words, cut to 32 bits, computes the hash value that does not depend on the width |
| `HashString.HashOfWord` | intl/hash-string.h:28-48 | The hash value of one word of eleven letters, over all foldings |
| `Probing.VisitsAll` | intl/dcigettext.c:747-783 | For a prime table size above 2 the probe sequence of every hash value visits every slot |
| `Probing.SlotIsSum` | intl/dcigettext.c:779-782 | The step with its wrap-around is addition modulo the table size |
| `Probing.SlotsDiffer` | intl/dcigettext.c:747-783 | Fewer steps than the table has slots never lead back to a slot |
| `Probing.NoZeroDivisor` | intl/dcigettext.c:747-748 | A prime divides no product of two smaller positive numbers |
| `Catalog.Locate` | intl/dcigettext.c:742-811 | The msgid is located by hash table, with the hash value that hash_string computes, or by binary search if there is none; both return the index that a linear search over the static and system-dependent msgids finds |
| `Catalog.HashSearch` | intl/dcigettext.c:742-785 | The lookup by hash table returns the index that a linear search over the static and system-dependent msgids finds |
| `Catalog.Probe` | intl/dcigettext.c:750-783 | The probe loop ends, at an entry that matches or at a free slot, and has missed no entry before |
| `Catalog.BinarySearch` | intl/dcigettext.c:786-811 | On a sorted catalogue without hash table the binary search returns the same index |
| `Catalog.FreeSlotMeansAbsent` | intl/dcigettext.c:755-757 | A probe that ends at a free slot proves that no msgid matches |
| `Catalog.Augment` | intl/loadmsgcat.c:1317-1343 | Augmentation fills free slots only, and the new table finds every static and every system-dependent msgid |
| `Catalog.FirstFree` | intl/loadmsgcat.c:1329-1342 | The loop finds the first free slot of the probe sequence |
| `Catalog.InsertKeeps` | intl/loadmsgcat.c:1331-1336 | Filling the first free slot keeps every earlier entry findable and makes the new one findable |
| `Loader.SizingPass` | intl/loadmsgcat.c:1118-1181 | The measuring pass counts the pairs whose segments are all supported and the bytes their strings need, or finds a reference out of range |
| `Loader.FillPass` | intl/loadmsgcat.c:1183-1315 | The filling pass uses up the block to the byte, ends with the measured number of pairs, and its tables hold, in file order, exactly the supported pairs |
| `Loader.KeptPlaces` | intl/loadmsgcat.c:1183-1315 | Both strings of a supported pair stand at the place that the number of supported pairs before it gives, and there are no others |
| `Loader.FillPair` | intl/loadmsgcat.c:1246-1312 | Filling one pair keeps the earlier descriptors and adds the pair |
| `Loader.CopyString` | intl/loadmsgcat.c:1279-1308 | A string is the concatenation of its static and system-dependent segments |
| `Loader.HasAllValues` | intl/loadmsgcat.c:1208-1242 | The second check, which does not test references against the number of segments, agrees with the first on every string that passed it |
| `Loader.LoadSysdep` | intl/loadmsgcat.c:1118-1345 | The two passes and the augmentation together: the new tables and a hash table that finds every msgid |
| `Loader.LoadAndLocate` | intl/loadmsgcat.c:1118-1345 | A msgid that is looked up in a loaded file is found where a linear search over the static msgids and the msgids of the supported pairs finds it |
| `Bindings.FindBinding` | intl/bindtextdom.c:116-128 | The search with early exit finds the binding of a domain exactly if it is in the sorted list |
| `Bindings.Insert` | intl/bindtextdom.c:298-314 | A new binding is put in at one place and the list stays sorted |
| `Bindings.RepresentsInsert` | intl/bindtextdom.c:298-314 | The list with a new binding stands for the settings with the new domain |
| `Bindings.RepresentsUpdate` | intl/bindtextdom.c:130-211 | A changed binding stands for the changed settings, and others are not concerned |
| `Caches.RunAll` | intl/dcigettext.c:426-716 | For every sequence of bindtextdomain, bind_textdomain_codeset, textdomain and gettext calls, the answers are those of a specification that caches nothing: msgids are found as by a linear search of the catalogue, and charset and plural rule are those that its header entry says |
| `Behaviour.RunProgram` | intl/dcigettext.c:426-716 | For every sequence of calls, each reply is determined by the calls before it and the files: the directory, codeset and current domain are those set last; a translation comes from the first catalogue that knows the msgid, in the locales before C or POSIX, converted to the charset set last; and the form is the one that the rule of that catalogue means |
| `Behaviour.AnswerMeans` | intl/dcigettext.c:509-716 | The answer of a search is that of the first catalogue, in order of locales and of files within a locale, that knows the msgid, and untranslated exactly if none does |
| `Behaviour.UntranslatedIsGermanic` | intl/dcigettext.c:694-716 | An untranslated call answers as a catalogue would that holds msgid1 and msgid2 as variants under the Germanic rule, and without plural it returns msgid1 |
| `Caches.Gettext.Dcigettext` | intl/dcigettext.c:426-716 | A call answers what a fresh search and conversion under the current bindings would, and keeps every cache entry right or detectably stale |
| `Caches.Gettext.KnownTranslation` | intl/dcigettext.c:476-501 | An entry whose counter is current holds what a fresh search would find |
| `Caches.Gettext.Remember` | intl/dcigettext.c:644-681 | Entering a fresh result keeps the caches right |
| `Caches.Gettext.Search` | intl/dcigettext.c:509-692 | The loop over locales finds what the specification finds |
| `Caches.Gettext.FindInChain` | intl/dcigettext.c:616-637 | The root catalogue and its successors are asked in order |
| `Caches.Gettext.FindDomain` | intl/finddomain.c:91-112 | The catalogues of the chain are opened one after the other up to the first that has data, unless they are known already, and nothing else changes |
| `Caches.AskedForOnly` | intl/finddomain.c:91-112 | Exactly these catalogues are known afterwards besides those known before, each new one with the converter that the current bindings ask for |
| `Caches.Gettext.FindMsg` | intl/dcigettext.c:719-1024 | A lookup in one catalogue, by Catalog.Locate, gives the text in the charset that is bound now, although the table of converted texts may be from before |
| `Caches.Gettext.Convert` | intl/dcigettext.c:839-1017 | A converted text is the same whether it is taken from the table or made now |
| `Caches.Gettext.InitDomainConv` | intl/loadmsgcat.c:774-884 | The converter is the one from the charset of the header entry to the current codeset, the noted counter says so, and the header entry is returned unconverted |
| `Caches.Gettext.LoadDomain` | intl/loadmsgcat.c:1386-1395 | A catalogue that is opened gets the plural rule of its header, and the converter for the codeset that is bound now; one without a file is noted as such |
| `Headers.ExtractPlural` | intl/plural-exp.c:99-155 | Number and expression are those of the specification, or the Germanic rule if a part is missing or malformed |
| `Headers.ReadsHeader` | intl/plural-exp.c:99-155 | A header whose nplurals= is followed by the digits of a number and whose plural= by a written expression, with any blanks and brackets, gives that number and the tree of that expression |
| `Headers.ReadsCharset` | intl/loadmsgcat.c:803-814 | The charset is the text behind the first charset=, up to a blank, a tab, the end of the line or of the header |
| `Headers.GermanicForms` | intl/plural-exp.c:33-55 | Without a rule, 1 takes the first form and every other number the second |
| `Caches.Gettext.SetBindingValues` | intl/bindtextdom.c:95-339 | The settings become those asked for, the values handed back are the current ones, and no cache entry that looks valid is wrong |
| `Caches.Gettext.TextDomain` | intl/textdomain.c:79-136 | The current domain becomes the one asked for and every known translation becomes stale |
| `Caches.UpdateKeepsCaches` | intl/bindtextdom.c:174-210 | A binding whose codeset counter grows with every new codeset leaves no entry that is wrong but looks valid |
| `Caches.InsertKeepsCaches` | intl/bindtextdom.c:221-316 | Nor does a new binding |
| `Caches.PluralLookup` | intl/dcigettext.c:1027-1062 | The plural variant for a number: the one that the rule selects, or the first if there are fewer |
| `Variants.SkipFindsVariant` | intl/dcigettext.c:1043-1060 | Stepping over NULs leads to the variant of that index, and runs out exactly if there is none |
| `Variants.JoinedVariant` | intl/dcigettext.c:1043-1060 | Looking up a variant undoes joining the variants with NULs |
| `L10nList.Pool.Make` | intl/l10nflist.c:168-361 | The pool stays strictly decreasing in file names; a name that is there is returned and nothing changes; otherwise the new file and everything it inherits from are made, each with its full list of successors and marked if it can never be loaded, and the recursion ends |
| `L10nList.Pool.FillSuccessors` | intl/l10nflist.c:320-358 | The successors are, for each chosen bit pattern from the mask down, the files in each directory, and they fit into the array with their NULL |
| `L10nList.Locate` | intl/l10nflist.c:269-287 | The search finds a name exactly if it is in the pool, and otherwise the place where it belongs |
| `L10nList.SuccessorsFit` | intl/l10nflist.c:297-301 | For every directory list and every 16-bit mask the successors and the NULL fit into the slots that are allocated |
| `L10nList.GeneralisationsExact` | intl/l10nflist.c:333-336 | The chosen patterns are exactly those within the mask that mix no syntaxes, in strictly decreasing order |
| `Successors.PatternsByBits` | intl/l10nflist.c:333-336 | For every mask, a pattern is tried exactly if it has no bit that the mask does not have, no bit of special, sponsor, revision or audience beside one of codesets or modifier, and not both codesets; from the top down |
| `Successors.SuccessorsOfName` | intl/l10nflist.c:314-360 | A locale with territory and a codeset that is not in normal form inherits, in this order, from lang_TERR.codeset, lang_TERR.norm, lang_TERR, lang.codeset, lang.norm and lang |
| `Successors.SuccessorsOfDirs` | intl/l10nflist.c:333-352 | With several directories, every pattern from the whole mask down is tried in each directory in order before the next pattern |
| `Successors.BuiltMeans` | intl/l10nflist.c:305-360 | A finished file inherits from the files of these names in the pool, and is decided on beforehand exactly if it stands for several directories or has both codesets |
| `Successors.LookedUpByBits` | intl/l10nflist.c:309-314 | A file is decided on beforehand exactly if it stands for several directories or has both codesets |
| `L10nList.SameNameSameFile` | intl/l10nflist.c:269-287 | A name leads to one file only |
| `Bits.PopCounts` | intl/l10nflist.c:154-165 | pop counts the bits of every number of at most 16 bits |
| `Submasks.CountSubmasks` | intl/l10nflist.c:333-336 | A mask dominates two to the number of its bits many patterns |
| `L10nNames.BuildFileName` | intl/l10nflist.c:190-267 | The buffer holds the name and its NUL and is exactly as long |
| `L10nNames.SizeIsExact` | intl/l10nflist.c:190-210 | The size that is allocated is the length of the name plus one |
| `Argz.Stringify` | intl/l10nflist.c:111-122 | Every NUL but the last becomes the separator |
| `Argz.Count` | intl/l10nflist.c:87-99 | The number of strings |
| `Argz.Next` | intl/l10nflist.c:133-149 | The start of the next string, or NULL at the end |
| `ExplodeName.ExplodeName` | intl/explodename.c:51-185 | For every name: the pieces joined by their separators give the name back, exactly the separators are overwritten by NUL, the pointers lead to the pieces, and the mask has their bits |
| `ExplodeName.SplitUnique` | intl/explodename.c:70-168 | A name has one well-formed splitting only |
| `ExplodeName.ReadsPieces` | intl/explodename.c:59-168 | Every piece of an exploded name can be read through its pointer |
| `ExplodeName.DropEmptyPieces` | intl/explodename.c:170-182 | Empty pieces of the XPG syntax lose their bits; an empty modifier keeps CEN_AUDIENCE |
| `ExplodeName.CodesetBits` | intl/explodename.c:104-114 | The codeset counts as not normal if the rest of the name, with a modifier in it, differs from the normal form |
| `ExplodeName.NormBitMeans` | intl/explodename.c:104-114 | So it always counts as not normal if a modifier follows |
| `ExplodeName.NormBitAsDescribed` | intl/loadinfo.h:119-121 | The bit is set as it is described exactly if no modifier follows the codeset or the codeset is not in normal form |
| `ExplodeName.NormBitDeviates` | intl/explodename.c:104-114 | In de_DE.utf8@euro the codeset is in normal form, and the bit is set all the same |
| `RootNames.FoundByName` | intl/finddomain.c:84-146 | The name by which a locale is looked up first is that of the file made from its pieces exactly if it has, in XPG syntax, a territory, a codeset in normal form and no modifier, or, in CEN syntax, no revision without a sponsor |
| `RootNames.RootName` | intl/l10nflist.c:225-265 | With the mask of an exploded name, every piece that the mask counts gets its separator again: a normalized codeset of its own, a plus for the modifier, and a comma before a revision |
| `ExplodeName.ExplodeCen` | intl/explodename.c:132-168 | The CEN pieces are cut off in order |
| `Codesets.NormalizeCodeset` | intl/l10nflist.c:367-404 | The normal form fills its buffer exactly |
| `Codesets.NormalizedTwice` | intl/l10nflist.c:363-366 | The normal form of a normal form is itself |
| `Codesets.EveryCharacter` | intl/l10nflist.c:389-394 | Capital letters become the small ones 32 further on, small letters and digits stay, and every other character is dropped |
| `Codesets.NormalForms` | intl/l10nflist.c:363-404 | UTF-8 becomes utf8, and 8859-1 becomes iso88591 |
| `PrintfParse.Parse` | intl/printf-parse.c:62-532 | Succeeds exactly on the formats whose syntax is right, in which no argument has two types, and whose two arrays stay within a size_t; it then returns the directives and the table of argument types that the syntax determines, and the greatest lengths of widths and precisions |
| `PrintfArgs.SmallIndicesFit` | intl/printf-parse.c:83-113 | The table never gets too large if all indices are below 2^58, whatever their order |
| `PrintfArgs.BigIndexRefused` | intl/printf-parse.c:83-113 | It always does with an index of 2^59 - 1 or more |
| `PrintfParse.FewDirectivesFit` | intl/printf-parse.c:502-519 | The array of directives never gets too large for up to 2^56 directives |
| `PrintfParse.ParseDirective` | intl/printf-parse.c:118-499 | One directive, from its percent sign to its conversion character, is read as DirectiveAt specifies it, and its arguments are registered in order |
| `PrintfWritten.ReadExactly` | intl/printf-parse.c:118-499 | What DirectiveAt reads: a percent sign is the start of a directive exactly if position, flags, width, precision, length letters and conversion are written behind it, and the directive has the flags, fields, conversion and position that are written |
| `PrintfWritten.ReadsWritten` | intl/printf-parse.c:118-499 | A directive that is written down is read back, whatever stands around it |
| `PrintfWritten.ReadsIso` | intl/printf-parse.c:300-481 | For every length modifier and conversion that section 7.19.6.1 of ISO C 99 defines, the argument type is the one it gives |
| `PrintfWritten.ReadsLetters` | intl/printf-parse.c:300-481 | For every sequence of modifiers, also those that ISO C 99 leaves open, the type is that of a table over the number of h, the number of l, j, z, Z and t, and L |
| `PrintfWritten.NumberIsValue` | intl/printf-parse.c:132-138 | The digits of a position are read as their decimal value, or as SIZE_MAX if it does not fit |
| `PrintfSyntax.ParseTiles` | intl/printf-parse.c:115-520 | The directives tile the format: literals without percent sign and directives alternate and cover it |
| `PrintfArgs.Arguments.Register` | intl/printf-parse.c:83-113 | Registering a use extends the table, and fails exactly if the argument has another type or the table would get too large |
| `PrintfArgs.TableUnique` | intl/printf-parse.c:83-113 | The table is determined by the uses: their types, no type in the gaps, and a used argument at the end |
| `PrintfArgs.NoDollarNoGap` | intl/printf-parse.c:485-496 | A format without positions leaves no gap in the table |
| `PrintfArgs.FetchArgs` | intl/printf-args.c:29-119 | Fetching takes the arguments in order, and fails exactly if one of them has no type |
| `PrintfArgs.GapsAreUnused` | intl/printf-args.c:114-116 | An argument without type is one that no directive uses |
| `PrintfEngine.Vasnprintf` | intl/vasnprintf.c:114-894 | A format is refused exactly if it cannot be parsed or leaves an argument unused below the last one, and memory is reported to be lacking exactly if one of the two buffers would get too large; otherwise the result is the literals and conversions in order with a final NUL, whatever the buffer passed in and whichever way snprintf reports lengths, and it is too long exactly above INT_MAX |
| `PrintfCalls.ParsedSelects` | intl/vasnprintf.c:571-582 | The output of every parsed format is the one that arises if each directive is converted with the ints that its stars select, in the order in which they are written, and the value that its conversion selects; and each "%n" stores, through the argument that it selects, the length of the output so far |
| `PrintfCalls.ParsedInOrder` | intl/vasnprintf.c:571-582 | Without positions, the directives take the arguments one after the other from the front, stars first, and each argument is taken once |
| `PrintfEngine.Execute` | intl/vasnprintf.c:212-851 | The loop appends each literal and each conversion, stores the lengths that "%n" asks for, cut to the integers they are stored into, and grows the buffer to the size that the lengths determine, or fails exactly if that does not fit |
| `PrintfEngine.SignedMeans` | intl/vasnprintf.c:245-265 | What is stored is the one value of the integer that equals the length modulo its range, and the length itself exactly if that is in the positive half |
| `PrintfEngine.CountsExact` | intl/vasnprintf.c:245-265 | In a result of at most INT_MAX characters every count lies between nothing and the whole length, and only a char or a short can be too narrow for it |
| `PrintfEngine.NeededBounded` | intl/vasnprintf.c:212-851 | The buffer never gets larger than twice the result and 12, unless the one passed in was |
| `PrintfEngine.BuildDirective` | intl/vasnprintf.c:505-567 | The rebuilt directive with "%n" and NUL is written within the small buffer |
| `PrintfRebuilt.RebuiltMeansSame` | intl/vasnprintf.c:505-567 | The rebuilt directive, whatever follows it, is read as the directive of the format: the same flags and conversion, a width and a precision that are spelled the same, stars for stars, no positions, and the argument type after promotion |
| `PrintfRebuilt.CountFollows` | intl/vasnprintf.c:558-567 | With "%n" behind it, it is a format of exactly two directives, and the second stores an int |
| `PrintfRebuilt.TypeReadBack` | intl/vasnprintf.c:537-557 | The length letters for a type are read as that type |
| `PrintfEngine.DirectiveFits` | intl/vasnprintf.c:150-153 | Its length is at most 7 + width + precision + 6, with equality for all flags and a long long |
| `PrintfEngine.BoundIsReached` | intl/vasnprintf.c:150-153 | A format that reaches the bound |
| `PrintfEngine.ParsedChain` | intl/vasnprintf.c:226-265 | In every parsed format the conditions under which the code would abort do not arise |
| `PrintfOutput.Output.Convert` | intl/vasnprintf.c:584-848 | A conversion appends its text whole, for an snprintf that knows "%n", for one that returns the length, and for one that returns -1 until the text fits; the growths of the buffer and its final size are exactly those computed from the lengths |
| `PrintfOutput.Output.Ensure` | intl/vasnprintf.c:187-210 | Afterwards there is room, the text is kept, and the size is doubled or the needed one; it fails exactly if that does not fit a size_t |
| `PrintfOutput.AtMostThreeGrowths` | intl/vasnprintf.c:584-848 | With an snprintf that tells the length, the loop around it grows the buffer twice at most; with the growth before it there can be three, exactly if there was no room to begin with and the text needs twice what was made |
| `PrintfOutput.ThreeGrowths` | intl/vasnprintf.c:584-848 | An empty buffer and a text of 100 characters take three growths |
| `PrintfOutput.BlindGrowthsExact` | intl/vasnprintf.c:783-796 | With an snprintf that returns -1 instead, k growths make the buffer 2^k * (size + 12) - 12 long, and the loop ends with the first of these sizes that holds the text and its NUL |
| `XSize.Xsum` | intl/xsize.h:52-61 | The sum, or SIZE_MAX if it does not fit |
| `XSize.Xsum4` | intl/xsize.h:73-81 | The sum of four, or SIZE_MAX if it does not fit |
| `XSize.Xtimes` | intl/xsize.h:95-100 | The product, or SIZE_MAX if it does not fit |
| `Relocatable.ComputeCurrPrefix` | intl/relocatable.c:170-274 | Returns a prefix exactly if the original directory is the original prefix followed by a relative part and the current directory is that prefix followed by the same part |
| `Relocatable.MovedExactly` | intl/relocatable.c:170-274 | The library has moved from one prefix to the other exactly if both directories end in the same part, which is empty or begins with a slash |
| `Relocatable.TakeAway` | intl/relocatable.c:215-257 | Comparing components backwards uses up the relative part exactly if the directory ends with it |
| `Relocatable.CurrentDir` | intl/relocatable.c:190-211 | The directory part of a path name |
| `Relocatable.Relocator.Relocate` | intl/relocatable.c:385-447 | The first call finds out where the library is now, and from then on every path under the installation prefix is moved there; if that cannot be found out, only a prefix that was set before counts; later calls change nothing |
| `Relocatable.RelocateAll` | intl/relocatable.c:385-447 | For every sequence of calls: once the library has moved, every path is relocated and the installation directory becomes the directory that the library is in, and otherwise every path is left alone |
| `Relocatable.Relocator.SetRelocationPrefix` | intl/relocatable.c:105-136 | Not storing equal prefixes does not change what relocation does |
| `Relocatable.RelocatedBack` | intl/relocatable.c:422-446 | Relocating in the opposite direction gives the path name back |
| `Relocatable.RelocatedMeans` | intl/relocatable.c:422-446 | The prefix itself and what lies behind it and a slash get the current prefix in its place |
| `Relocatable.OthersStay` | intl/relocatable.c:422-446 | Every other path name stays as it is |
| `Database.LoadDatabase` | src/db.c:227-269 | For every sequence of read sizes: the length error fires exactly if some chunk that is read before the first syntax error brings no newline, and otherwise the outcome is that of the newline-terminated lines in order; a file that is loaded has no line longer than 1024 characters with its newline |
| `Database.NeverStarves` | src/db.c:235-262 | With full reads and lines of at most 1024 characters with their newline, the last one included, every chunk brings one |
| `Database.FullReadsStarve` | src/db.c:235-262 | With full reads the length error depends on the file alone: it fires exactly if, filling the buffer from line start to line start, some buffer before the first syntax error has no newline |
| `Database.LongLineStarves` | src/db.c:256-260 | For a file that ends in a newline and has no syntax error, that is exactly if some line is longer than 1024 characters with its newline |
| `Database.SpuriousLengthError` | src/db.c:256-260 | A comment of 1024 characters with its newline and one more character: no line is longer and none is wrong, and with full reads the length error fires |
| `Database.LongLineDecides` | src/db.c:256-260 | For a file that ends in a newline the two conditions on its lines are one |
| `Database.ParseLines` | src/db.c:244-254 | The complete lines in the buffer are parsed in order, and what is left has no newline |
| `Database.Drives.ParseDbLine` | src/db.c:131-205 | Returns 1 for a syntax error and otherwise appends exactly the entry of the line, writing only inside the line |
| `Database.ExtractString` | src/db.c:70-92 | Finds the first quote that no backslash precedes |
| `Database.ParsesWritten` | src/db.c:131-205 | Parsing an entry that is written down gives the entry back |
| `DriveLines.DriveExactly` | src/db.c:131-205 | A line is an entry exactly if it spells it: quoted expression, number, unit and quoted description with blanks between them, where a backslash takes the next character along and the number is stored as the congruent short |
| `DriveLines.NothingExactly` | src/db.c:139-141 | A line counts for nothing exactly if it is blank or a comment |
| `DriveLines.UnsafeEnds` | src/db.c:70-101 | The search for a closing quote leaves a line only if the line ends in a backslash |
| `DriveLines.LoadListed` | src/db.c:227-269 | A file whose lines spell entries, with blank lines and comments anywhere, is loaded as these entries in their order, for every sequence of read sizes that does not starve |
| `DriveLines.StopsAt` | src/db.c:239-247 | The first line that spells nothing ends the loading, and is reported by its number among all lines |
| `FixString.ScsiFixString` | src/scsicmds.c:47-66 | The buffer holds the words of its text with one blank between each two, filled with NULs |
| `FixString.SataFixString` | src/satacmds.c:90-115 | The same after exchanging the bytes of each pair on a little-endian host |
| `FixString.FixedTwice` | src/scsicmds.c:47-66 | Cleaning up twice is the same as once |
| `FixString.KeptIsUnwords` | src/scsicmds.c:58-62 | What the loop keeps of a text is its words with one blank between each two |
| `FixString.ToHostOrder` | src/satacmds.c:98-102 | The loop over 16-bit words exchanges the bytes of each pair |

## Left out

Statements that say less than one might wish:

- PrintfEngine.Vasnprintf: a conversion makes the same text in every attempt, and the conversion of a length to a signed integer that is too narrow for it, which C leaves to the compiler, takes the low bits.
- Database.LoadDatabase: a read that fails ends the loop like the end of the file, and is not told apart from it.
- Caches.RunAll: the environment, the files and the locale list stay fixed, and the counters are unbounded, so that a counter that wraps around to an old value is not covered.
- Relocatable.Relocator.Relocate: one thread only; the full name of the library is a parameter that stays the same.
- FixString.SataFixString: the last byte of an odd count is stated to be untouched, which the source rules out by a comment.

Assumptions that the source makes of its files and callers, stated as preconditions:

- `hash_size` is prime and above 2 with a free slot left, the static hash table is well formed, msgids are distinct, and a catalogue without hash table is sorted.
- Every system-dependent string has its SEGMENTS_END segment, static parts lie inside the file, and a system-dependent msgid is stored with its NUL.
- A directory, locale, category and domain determine the chain of catalogues, and a catalogue belongs to one domain. What `_nl_find_domain` depends on from earlier lookups is not part of this model.
- In no line of the drive database does the search for a closing quote come to a backslash as the last character, where `extract_string` would step over the NUL; comments, and lines behind the first syntax error, may end in anything.
- The caller of vasnprintf passes the arguments that the format asks for, and snprintf reports one fixed length per directive, through "%n" or as its value.

Not modelled:

- Device access, sockets, signals, logging, option parsing and the display of temperatures.
- malloc that fails, except where a size computation saturates; hence NULL expression trees and half-made bindings.
- Opening, mapping and byte-swapping of catalogue files (`W`), and sizes that overflow while the first pass adds them up.
- iconv, which is a function from texts to texts here, and the block allocator around it.
- The colon list of `LANGUAGE` and the filter for set-uid programs; relative directories and getcwd.
- Locale aliases, locale name detection on other systems, and the table of PRI macros.
- Wide-character and Windows variants, long long, long double or snprintf being absent, and character classes beyond ASCII in codeset names.
- The debugging output of the parser and its error messages.
- regcomp and regexec on the drive database, and freeing it.
