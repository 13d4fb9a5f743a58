# A verified model of xine-lib's text and stream machinery

This Dafny project models the parts of xine-lib that work hardest on their data, and proves what they are for:

* **The gettext plural compiler** (`intl/plural.c`, evaluator in `intl/dcigettext.c`, set-up in `intl/loadmsgcat.c`).
  The LALR(1) tables are copied value by value and shown to be a precedence automaton; the driver is a transition
  system that halts on every token stream; it returns a tree exactly when the input is a reading of that tree under
  the precedence grammar; a minimal printer, the scanner and the parser make a round trip; the form chosen from a
  translation is the one the header text asks for.
  Modules `PluralSyntax`, `PluralTables`, `PluralParser`, `PluralGrammar`, `PluralLexer`, `PluralDriver`,
  `PluralPrinting`, `PluralHeader`, `PluralForms`, `PluralLaws`, `PluralTexts`.
* **Catalogue lookup and its caches** (`intl/dcigettext.c`, `intl/hash-string.h`, `intl/bindtextdom.c`,
  `intl/textdomain.c`). Double hashing and bisection give the same, only right answer; the sorted list of bindings
  refines a finite map; the cache of translations is coherent in every run.
  Modules `CStrings`, `HashString`, `Probing`, `Catalogue`, `Bindings`, `Gettext`, `GettextLaws`.
* **Locale names** (`intl/explodename.c`, `intl/l10nflist.c`). Taking a name apart in place and putting it together
  again; the recursive enumeration of submasks into exactly sized memory and a sorted list.
  Modules `BitMasks`, `LocaleNames`, `L10nList`, `L10nFallbacks`, `Codesets`, `LocaleExplode`, `LocaleLaws`.
* **Demultiplexers** (`src/demuxers/demux_asf.c`, `demux_avi.c`, `demux_film.c`). Fragment reassembly under loss,
  block de-interleaving, byte accounting across nested parsers (section 5.2 of the ASF Specification), an index that
  grows while it is read, packetised reads, seeking to keyframes.
  Modules `AsfReorder`, `AsfFragments`, `AsfStream`, `AsfJournal`, `AsfDealing`, `AsfNumbering`,
  `AsfPackets`, `AsfExample`, `AviIndex`, `AviKeyframes`, `AviReading`, `AviEntries`, `Film`.
* **Audio reblockers** (`src/audio_out/audio_sun_out.c`, `audio_esd_out.c`). Two implementations of one stream
  specification. Module `Reblocking`.

`Arithmetic`, `Bytes` and `Wrappers` hold what several modules share. Code that updates state in place is modelled by
methods and classes, each proved against a function on values; the theorems are lemmas about these functions and the
invariants the methods keep; what a function on values means is told by laws that do not mention how it computes, and
by literal inputs. `dafny verify dfyconfig.toml` checks everything.

## What the proofs brought to light

Where the code does not do what one would expect of it, the model follows the code and a lemma says exactly when it
does.

* A frame that begins while an older one is unfinished keeps the older one's time stamp
  (`AsfFragments.TimestampIsOwn`, `TimestampLeftOver`; `src/demuxers/demux_asf.c:896-900`).
* A stream sent without defragmentation does not end a frame that a loss leaves unfinished, so the decoder gets it and
  the next one as one (`AsfFragments.UnmixedExactly`, `FramesMixed`; `src/demuxers/demux_asf.c:775-803`).
* A keyframe with time stamp 0 does not end the waiting after a lost packet, and the next payload does, keyframe or not
  (`AsfDealing.WaitingEnds`, `KeyframeAtZero`; `src/demuxers/demux_asf.c:1332-1344`).
* Stereo sound of a FILM file is read from where the input stands, not from the place the table gives: behind a picture
  passed over after a seek, or after the seek itself, it is the wrong bytes until a picture is sent
  (`Film.SoundInPlace`, `SoundMisplaced`; `src/demuxers/demux_film.c:584-593`).
* Behind a negative sequence number, which only a field of four bytes can leave, a shorter field makes a gap whatever it
  says, unless the next number is 0 in it, because the remainder keeps the sign (`AsfNumbering.GapMeans`;
  `src/demuxers/demux_asf.c:1177-1203`).
* The search for a packet can leave the grid of packet starts, with packets shorter than what is read of them, at most
  16 bytes (`AsfPackets.SkipLands`, `SkipMisses`; `src/demuxers/demux_asf.c:1038-1044`).
* An AVI chunk of length 0xFFFFFFF7 or 0xFFFFFFF8 takes up no space in 32-bit arithmetic and stops the index scan from
  ever ending (`AviIndex.ScanEnds`, `ScanHalts`; `src/demuxers/demux_avi.c:461`). A single call ends all the same if it
  waits for an entry of that chunk (`AviIndex.StalledCallEnds`).
* An AVI entry directly behind a list header records the position of the list header (`AviIndex.PositionIsOwn`,
  `PositionNotOwn`; `src/demuxers/demux_avi.c:453-458`).
* A read that has room for more than the rest of the last AVI entry fails and drops what it has read
  (`AviReading.LastFrameLost`, `ByteLost`; `src/demuxers/demux_avi.c:1041-1048`).
* The codeset of a locale name is compared with its normalized form before a following modifier is cut off, so with a
  modifier the two always count as different (`LocaleExplode.CompareNormalized`, `NormalizedUtf8`;
  `intl/explodename.c:107-119`).
* Recomposing a locale name puts a comma before a revision even without a sponsor, and drops the separators of empty
  XPG parts (`LocaleExplode.RoundTripExactly`, `RevisionOne`; `intl/l10nflist.c:222-261`). The memory for a file name
  has one byte to spare exactly with a sponsor (`LocaleNames.AllocationSuffices`).
* The parser's stack limit is an outcome of its own; how much stack a text needs is a function of the text
  (`PluralGrammar.ReadableIsParsed`).
* An ASF packet that begins with the byte of a file header, without being one, has 15 more bytes read than accounted
  for (`AsfPackets.Demuxer.ParsePacketHeader`; `src/demuxers/demux_asf.c:1007-1025`).

## Model

| member | source | states |
|---|---|---|
| `PluralTables.PackedIsAct` | `intl/plural.c:261-301` | the packed tables, copied value by value, hold exactly the automaton of the precedence grammar, for every state and every symbol |
| `PluralTables.PackedGotoIsGoto` | `intl/plural.c:267-283` | the same for the goto tables, and every index into them is in range |
| `PluralTables.NoStateTakesErrorToken` | `intl/plural.c:1047-1100` | no state does anything on the error token but be popped |
| `PluralTables.TranslateIsSym` | `intl/plural.c:187-216` | the translation table gives each token its grammar symbol |
| `PluralParser.ReduceFindsHandle` | `intl/plural.c:824-922` | in every well-matched stack the action chosen finds its whole right-hand side, so no reduction pops below the bottom |
| `PluralParser.ReducedMatches` | `intl/plural.c:926-975` | after any reduction every stacked state matches its symbol again |
| `PluralParser.StepKeepsInvariant` | `intl/plural.c:618-975` | each turn of the driver, on any token stream, keeps the stack well matched and lowers a measure over unread tokens and stacked symbols: the driver halts |
| `PluralGrammar.Reading` | `intl/plural.c:718-975` | from any stack on which an expression may begin, the driver reads exactly a text that obeys precedence and stops with its tree on top, or reports overflow at an exactly given depth |
| `PluralGrammar.AcceptedIsRead` | `intl/plural.c:718-975` | whatever is accepted from a state whose stacked texts spell the consumed input is a reading of the whole input, with its tree as result |
| `PluralGrammar.ReadableIsParsed` | `intl/plural.c:618-975` | completeness: a readable input is never rejected; it is accepted with its tree, or it overflows a stack limit the text itself determines |
| `PluralGrammar.ParsedIsReadable` | `intl/plural.c:618-975` | soundness: an accepted input has a reading and the result is the tree of that reading |
| `PluralGrammar.ParserMeetsGrammar` | `intl/plural.c:618-975` | the driver returns tree e on a token sequence if and only if some precedence-obeying text of e spells it and fits the stack |
| `PluralGrammar.ReadingsAgree` | `intl/plural.c:251-301` | the grammar the tables encode is unambiguous: all readings of an input mean the same tree |
| `PluralLexer.Yylex` | `intl/plural.c:1175-1317` | the scanner loop delivers the token and position of the scanning function, from any position of any string |
| `PluralLexer.ScanNumber` | `intl/plural.c:1199-1211` | digits are accumulated modulo the machine word |
| `PluralLexer.ScanSymbol` | `intl/plural.c:1213-1310` | the token is one whose spelling stands there, and none with a longer spelling does; it is BAD exactly where no operator begins |
| `PluralLexer.LexUndoesLayout` | `intl/plural.c:1175-1317` | any sequence of tokens, written with any blanks that keep them apart and any terminator, is scanned back to exactly these tokens |
| `PluralTexts.NumberScanned` | `intl/plural.c:1199-1211` | a number of however many digits is scanned as one token, with its decimal value modulo the word |
| `PluralTexts.EndsAndBlanks` | `intl/plural.c:1183-1317` | spaces and tabs are passed over, and no other blank; a semicolon, a newline and a NUL end a text |
| `PluralDriver.ReadTables` | `intl/plural.c:718-812` | the lookup in the compressed tables, with its range checks, gives the action of the precedence automaton, for every state and symbol |
| `PluralDriver.Backup` | `intl/plural.c:718-765` | a lookahead is fetched only where the state needs one, and the decision is that of the tables |
| `PluralDriver.Grow` | `intl/plural.c:624-690` | the stacks grow by doubling, but not beyond YYMAXDEPTH, and are full exactly there |
| `PluralDriver.RunAction` | `intl/plural.c:845-922` | each semantic action builds the tree of its rule from the values on top of the stack |
| `PluralDriver.GotoState` | `intl/plural.c:967-975` | the lookup in the goto tables gives the state the automaton enters: after an expression where one may begin, and after the whole input |
| `PluralDriver.Recover` | `intl/plural.c:977-1118` | error recovery pops every state and returns 1: an error always aborts |
| `PluralDriver.Turn` | `intl/plural.c:618-975` | one pass through the labels of the driver is one step of the transition system |
| `PluralDriver.GettextParse` | `intl/plural.c:549-1118` | the whole parser, its stacks and lookahead: status and tree are those of parsing the scanned tokens with limit YYMAXDEPTH, hence (ParserMeetsGrammar) those of the grammar |
| `PluralDriver.ReductionReads` | `intl/plural.c:831-922` | the value-stack slots an action reads are the components of the handle |
| `PluralPrinting.WrittenObeys` | `intl/plural.c:251-301` | a tree written with parentheses only where precedence or associativity ask for them is a reading of that tree |
| `PluralPrinting.WrittenIsLeast` | `intl/plural.c:251-301` | no reading of the same tree in the same place has fewer parentheses |
| `PluralPrinting.PrintedParsesBack` | `intl/plural.c:549-1317` | round trip: any tree, written minimally and with any spacing, scanned and parsed gives back exactly that tree, or overflow exactly when the text needs more stack |
| `PluralForms.EvalFailsExactly` | `intl/dcigettext.c:1007-1087` | evaluation divides by zero exactly on the inputs that the path-sensitive predicate names; short-circuit operators and ?: protect the rest |
| `PluralLaws.Comparisons` | `intl/dcigettext.c:1057-1068` | for all trees with a value: a < b is 1 or 0 as the numbers compare, a > b is b < a, >= and <= negate < and >, != negates ==, and exactly one of <, == and > holds |
| `PluralLaws.Additions` | `intl/dcigettext.c:1053-1054` | adding 1 gives the next word, and 0 after the greatest; adding any number is adding 1 so often |
| `PluralLaws.Subtractions` | `intl/dcigettext.c:1053-1056` | subtraction undoes addition, and addition subtraction |
| `PluralLaws.Multiplications` | `intl/dcigettext.c:1047-1048` | multiplication is repeated addition |
| `PluralLaws.Divisions` | `intl/dcigettext.c:1049-1052` | for every divisor but 0, quotient times divisor plus remainder is the dividend, without overflow, and the remainder is below the divisor |
| `PluralLaws.Logic` | `intl/dcigettext.c:1028-1081` | the operators !, &&, || and ?: go by whether their operands are 0, and those that are not needed are not evaluated |
| `PluralTexts.CzechParsed` | `intl/plural.c:1175-1317` | the text of the Czech plural expression, whatever follows its semicolon, is parsed to the tree one reads in it |
| `PluralTexts.OtherOperators` | `intl/plural.c:1175-1317` | a text with the operators that expression has not: each has its spelling, its precedence, and associates to the left |
| `PluralTexts.CzechMeans` | `intl/dcigettext.c:1007-1087` | the Czech expression is 0 for counts that end in 1 but not 11, 1 for those that end in 2 to 4 but not 12 to 14, and 2 for all others, for every count |
| `PluralTexts.CzechTranslation` | `intl/dcigettext.c:1007-1087` | end to end from the literal header, through search, number, scanner, parser, evaluator and lookup: where in a translation of three forms the form for a count begins, by the last two digits of the count |
| `PluralTexts.MissingForms` | `intl/dcigettext.c:986-1003` | a form that the translation does not have, or that the header does not count, is replaced by the first |
| `PluralTexts.NotOneDeclared` | `intl/loadmsgcat.c:485-541` | the header that says n != 1 declares two forms and the built-in tree |
| `PluralForms.FormFor` | `intl/loadmsgcat.c:485-541` | from any header, or none, to the form: what is declared is evaluated, otherwise the first form is for n equal to 1 |
| `PluralForms.GermanicAgrees` | `intl/loadmsgcat.c:139-165` | the value of the built-in tree is 0 for n equal to 1, and 1 for every other n |
| `PluralForms.FormStartUnique` | `intl/dcigettext.c:986-1003` | form number k of a translation starts in one place only |
| `PluralForms.PluralLookup` | `intl/dcigettext.c:967-1004` | the pointer returned is the start of form eval(n) when that is below both counts, else form 0, and lies inside the translation |
| `PluralForms.PluralSetup` | `intl/loadmsgcat.c:485-541` | the tree and the count are those declared in the header: the expression behind the first `plural=` if it parses, and the number behind the first `nplurals=` if there is one; otherwise they are the built-in pair |
| `PluralHeader.StrToUl` | `intl/loadmsgcat.c:509-519` | the number read: spaces, a sign, decimal digits; what does not fit the word becomes the greatest one, a minus sign negates, and where there is no digit nothing is taken |
| `PluralHeader.NumberReadBack` | `intl/loadmsgcat.c:509-519` | a number written in decimal, behind any spaces, is read back |
| `PluralHeader.SignedReadBack` | `intl/loadmsgcat.c:509-519` | with a sign or without, and of any size: a number that does not fit the word is read as the greatest one, and a minus sign negates modulo the word |
| `PluralHeader.SpaceIs` | `intl/loadmsgcat.c:509-511` | the spaces passed over are the six of the C library |
| `PluralForms.SelectForm` | `intl/dcigettext.c:967-1087` | from the header to the form: a header that declares n forms and spells tree e, in any spacing and with anything around them, selects the form that e evaluates to (what that is say the laws of PluralLaws, and CzechTranslation by numbers), end to end through search, number, scanner, parser, evaluator and lookup |
| `CStrings.StrCmpTransitive` | `intl/dcigettext.c:747-749` | strcmp is a strict order (with StrCmpMirror and StrCmpEqual) |
| `CStrings.FirstDifference` | `intl/dcigettext.c:747-749` | it is decided by the first character in which the strings differ, the end of a string coming first |
| `HashString.HashLoop` | `intl/hash-string.h:37-58` | the hashing loop computes the recursive hash |
| `HashString.OneMoreCharacter` | `intl/hash-string.h:44-56` | one more character multiplies by 16 and adds the character, a negative one as the word it is cast to; what passes 28 bits is cut off and its lowest four bits are exclusive-ored into the second hexadecimal digit |
| `HashString.ShortHash` | `intl/hash-string.h:37-58` | up to six characters below 128 are the digits of the hash to the base 16 |
| `HashString.HashOfShort` | `intl/hash-string.h:37-58` | the hash of AB is 1106, that of AG 1111 |
| `HashString.HashOfLong` | `intl/hash-string.h:37-58` | a string of eight characters that folds twice, and a negative character |
| `HashString.HashIs28Bits` | `intl/hash-string.h:37-58` | every hash value fits 28 bits |
| `Probing.SlotsDiffer` | `intl/dcigettext.c:702-731` | two rounds among the first size never try the same slot of a prime-sized table |
| `Probing.EverySlotTried` | `intl/dcigettext.c:702-731` | the probe sequence visits every slot of a prime-sized table before repeating |
| `Catalogue.AnswerUnique` | `intl/dcigettext.c:698-759` | sorted keys admit one answer only |
| `Catalogue.FindByHash` | `intl/dcigettext.c:699-732` | the double-hash probe terminates on a table with a free slot and returns the index of the message, or a miss exactly when it is not there |
| `Catalogue.FindInSmall` | `intl/dcigettext.c:699-732` | in a table laid out from literal numbers, with two messages that begin at one slot, each message is found and no other string is |
| `Catalogue.SmallIsWellFormed` | `intl/dcigettext.c:699-732` | that table is well formed |
| `Catalogue.FindByBisection` | `intl/dcigettext.c:736-758` | the binary search returns the same answer on sorted keys |
| `Catalogue.FindMsg` | `intl/dcigettext.c:698-759` | whichever search the catalogue calls for, the answer is the only right one, so the two agree on every message |
| `Bindings.Binding.Rebind` | `intl/bindtextdom.c:139-222` | the fields of an existing binding become the requested ones; the result tells whether anything changed |
| `Bindings.BindingList.Find` | `intl/bindtextdom.c:117-129` | the early-exit search returns the node of the domain, or the place where it belongs when there is none |
| `Bindings.BindingList.Insert` | `intl/bindtextdom.c:296-316` | a new node is chained in at its place: the list stays strictly ascending |
| `Bindings.InsertedTable` | `intl/bindtextdom.c:296-316` | inserting in the list is inserting in the map |
| `Bindings.BindingList.SetBindingValues` | `intl/bindtextdom.c:94-337` | on every list the call does, and returns, what the same call on a finite map from domain to directory and codeset does; it reports a change exactly when the map changed |
| `GettextLaws.SetIsReturned` | `intl/bindtextdom.c:94-337` | a directory or codeset that was set is what later queries return, and setting one leaves the other as it was |
| `GettextLaws.OthersUntouched` | `intl/bindtextdom.c:94-337` | no other domain changes |
| `GettextLaws.NothingNew` | `intl/bindtextdom.c:139-222` | a query changes nothing, and neither does setting what is set already |
| `GettextLaws.CodesetCounted` | `intl/bindtextdom.c:190-207` | the changes of a codeset are counted, and only those |
| `Gettext.Process.Bind` | `intl/bindtextdom.c:131-337` | every change of a binding bumps the catalogue counter, so cached translations stay right |
| `Gettext.Process.TextDomain` | `intl/textdomain.c:78-141` | switching the domain bumps the counter and keeps the cache right |
| `Gettext.Process.FindInFiles` | `intl/dcigettext.c:600-620` | the message is taken from the first file that has it, the main one first |
| `Gettext.Process.SearchLanguages` | `intl/dcigettext.c:551-671` | the language list is searched in order, skipping forbidden names and ending at C or POSIX |
| `Gettext.Process.Search` | `intl/dcigettext.c:472-671` | directory, language list and files: what a full search finds |
| `Gettext.Process.DcigetText` | `intl/dcigettext.c:395-674` | cache coherence: whether or not the cache is hit, the reply is that of a full search made now, in every run of binds, domain switches and lookups |
| `GettextLaws.SetIsSearched` | `intl/dcigettext.c:472-530` | the directory that was set is the one searched, below the working directory if it is not absolute |
| `GettextLaws.CodesetIsUsed` | `intl/dcigettext.c:472-671` | the codeset that was set is the one into which translations are converted |
| `GettextLaws.FirstLanguageAnswers` | `intl/dcigettext.c:551-671` | for a list of languages written with any colons between them: the first entry that is not forbidden and either is C or POSIX or has the message decides; there is no hit in the first case, and in the second that is the hit; without such an entry there is none |
| `GettextLaws.FirstFileAnswers` | `intl/dcigettext.c:600-620` | of the files of one entry, the first that has the message gives the translation |
| `GettextLaws.ReplyWithoutHit` | `intl/dcigettext.c:580-590` | without a hit the reply is the text that the built-in plural expression chooses, for every count |
| `GettextLaws.ReplyToHit` | `intl/dcigettext.c:663-668` | to a hit it is the translation, or for plurals the form the file picks |
| `BitMasks.PopCounts` | `intl/l10nflist.c:149-160` | the four-line bit trick counts the ones of every 16-bit number |
| `BitMasks.RankBelow` | `intl/l10nflist.c:322-336` | a submask has a rank below 2^pop(mask) among the submasks of mask |
| `BitMasks.RankMonotone` | `intl/l10nflist.c:322-336` | distinct submasks have distinct ranks, in order |
| `LocaleNames.AllocationSuffices` | `intl/l10nflist.c:193-208` | the size computed for the file name is its length plus the NUL, and one more exactly with a sponsor |
| `LocaleNames.ArgzCount` | `intl/l10nflist.c:75-90` | counts the strings of the vector |
| `LocaleNames.ArgzNext` | `intl/l10nflist.c:122-140` | steps through the offsets of the strings of the vector |
| `LocaleNames.ArgzStringify` | `intl/l10nflist.c:99-115` | joins the vector in place with the separator |
| `LocaleNames.PutStem` | `intl/l10nflist.c:222-261` | writes the parts that the mask selects, each behind its separator |
| `LocaleNames.AbsFilename` | `intl/l10nflist.c:189-265` | builds exactly the file name of directories, parts and mask, inside the buffer |
| `L10nList.OneNodePerName` | `intl/l10nflist.c:268-289` | a descending list has one node per file name |
| `L10nList.RequestsFit` | `intl/l10nflist.c:291-336` | a node asks for at most dirs * 2^pop(mask) successors: the slots suffice |
| `L10nList.L10nFileList.Search` | `intl/l10nflist.c:268-289` | the early-exit search returns the node with the name, or the place for it |
| `L10nList.L10nFileList.InsertAfter` | `intl/l10nflist.c:306-316` | the node is chained in: the list stays strictly descending, and all nodes filled before stay as they were |
| `L10nList.L10nFileList.Make` | `intl/l10nflist.c:163-339` | the recursion terminates; it finds or creates the node with the file name. Every node of the list that is not being filled, also those the recursion creates, has as successors exactly the nodes of the list with the names it falls back to (RequestedExactly says which these are), in order, and NULL; existing nodes stay |
| `L10nList.L10nFileList.Create` | `intl/l10nflist.c:291-339` | a node that was not found is chained in and filled: it wants the requests of its mask and is complete at the end; it counts as decided, with nothing to load, exactly if it stands for several directories or for both codesets |
| `L10nList.L10nFileList.Descend` | `intl/l10nflist.c:322-339` | requests go out for the submasks of RequestedExactly in strictly decreasing order, never past the slots |
| `L10nFallbacks.RequestedExactly` | `intl/l10nflist.c:322-336` | a name is among the fallbacks of a node if and only if it is that of one directory and a mask, smaller than that of the node or, for several directories, equal, each of whose bits is in the mask of the node; which has not both a revision, sponsor, special or audience and a codeset, normalized codeset or modifier; and not both codesets |
| `L10nFallbacks.WantedIsAllowed` | `intl/l10nflist.c:322-324` | the three tests of the loop on 32-bit masks are these three conditions on single bits |
| `L10nFallbacks.FallbacksOf56` | `intl/l10nflist.c:322-336` | for a territory and both codesets, in one directory: the masks 48, 40, 32, 16, 8 and 0, in this order |
| `L10nFallbacks.NamesOfGerman` | `intl/l10nflist.c:222-261` | which are, for de_DE.UTF-8, the names de_DE.UTF-8, de_DE.utf8, de_DE, de.UTF-8, de.utf8 and de |
| `L10nFallbacks.PlainName` | `intl/l10nflist.c:217-238` | the name of language, territory and codesets, by the bits of the mask |
| `L10nFallbacks.CenName` | `intl/l10nflist.c:222-261` | the name with all parts of the CEN syntax |
| `L10nFallbacks.LoneRevision` | `intl/l10nflist.c:251-261` | the name with a revision only |
| `L10nFallbacks.WithModifier` | `intl/l10nflist.c:239-245` | the name with an XPG modifier |
| `L10nFallbacks.TwoDirectories` | `intl/l10nflist.c:217-221` | two directories, joined with a colon |
| `L10nList.L10nFileList.FillRow` | `intl/l10nflist.c:322-336` | one request per directory |
| `Codesets.NormalizeCodeset` | `intl/l10nflist.c:347-385` | the two passes agree: exactly the length counted is written, and it is the normalized name |
| `Codesets.NormalizeIdempotent` | `intl/l10nflist.c:347-385` | normalizing twice is normalizing once |
| `Codesets.KeptInOrder` | `intl/l10nflist.c:375-381` | exactly the letters and digits are kept, in their order, with capitals made small |
| `Codesets.NormalizedIs` | `intl/l10nflist.c:357-373` | in front of them stands iso exactly if there is no letter |
| `Codesets.NormalizedByExample` | `intl/l10nflist.c:347-385` | 8859-1 becomes iso88591 and UTF-8 becomes utf8 |
| `LocaleExplode.ExplodeName` | `intl/explodename.c:51-191` | cutting the name in place leaves every output pointer at the part the name has there, and returns the mask |
| `LocaleExplode.MaskOf` | `intl/explodename.c:168-191` | the mask bits, empty parts of an XPG name cleared again |
| `LocaleExplode.CompareNormalized` | `intl/explodename.c:107-119` | the codeset is compared with all that still follows it, so with a modifier its normalized form always counts as different |
| `LocaleExplode.PartsSpellName` | `intl/explodename.c:51-191` | exploding loses nothing: the parts with their separators are the name |
| `LocaleExplode.RoundTripExactly` | `intl/l10nflist.c:222-261` | recomposing the parts of any name with the plain mask gives the name back if and only if no XPG part is empty and a revision comes with a sponsor |
| `LocaleExplode.XpgRoundTrip` | `intl/explodename.c:51-191` | every name L[_T[.C]][@M] with non-empty parts is exploded into these parts and recomposed to itself |
| `LocaleLaws.CenRoundTrip` | `intl/explodename.c:51-191` | every name L[_T][+A[+S]][,P][_R] is exploded into exactly these parts, each with its bit in the mask, the audience with that of an XPG modifier too; it is recomposed to itself if and only if a revision comes with a sponsor |
| `LocaleLaws.CenExample` | `intl/explodename.c:51-191` | a name with all six parts, and its mask 231 |
| `LocaleLaws.MaskOfXpg` | `intl/explodename.c:88-136` | the mask of every XPG name with non-empty parts in numbers: 32 for a territory, 16 for a codeset and 8 more for a normalized form of its own, which a modifier always brings about, and 192 for a modifier |
| `LocaleLaws.MaskOfEmptyParts` | `intl/explodename.c:178-191` | of an XPG name with nothing but empty parts only the bit of a CEN audience is left |
| `LocaleExplode.RevisionAlone` | `intl/l10nflist.c:248-258` | a name with a revision and no sponsor never comes back |
| `LocaleExplode.RevisionOne` | `intl/l10nflist.c:248-258` | de_DE_1 is such a name |
| `LocaleExplode.NormalizedAgain` | `intl/explodename.c:107-119` | with a modifier, the bit for a normalized codeset is set even if the codeset is normalized already |
| `LocaleExplode.NormalizedUtf8` | `intl/explodename.c:107-119` | it is for de_DE.utf8@euro |
| `AsfReorder.Reorder` | `src/demuxers/demux_asf.c:686-703` | the in-place code computes the block-wise transposition of the first len bytes and leaves the rest |
| `AsfReorder.Transposed` | `src/demuxers/demux_asf.c:691-699` | in each block the cell at row y, column x goes to row x, column y |
| `AsfReorder.ReorderUndone` | `src/demuxers/demux_asf.c:686-703` | running it again with h and w exchanged gives back the input, for every length |
| `AsfReorder.ReorderPermutes` | `src/demuxers/demux_asf.c:686-703` | it permutes the bytes and does not touch the tail behind the last full block |
| `AsfFragments.SpreadByExample` | `src/demuxers/demux_asf.c:686-703` | six bytes spread over two packets |
| `AsfFragments.FrameIsGenuine` | `src/demuxers/demux_asf.c:863-972` | every frame flushed, whatever fragments were lost, repeated or reordered, consists of the bytes of fragments of one sequence number whose offsets abut from 0, none used before, at most DEFRAG_BUFSIZE |
| `AsfFragments.EveryFrameIsGenuine` | `src/demuxers/demux_asf.c:863-972` | the same of each frame in the output of a whole run |
| `AsfFragments.HeldIsGenuine` | `src/demuxers/demux_asf.c:880-907` | at every moment the buffer holds such a beginning of a frame, within its bounds |
| `AsfFragments.CompleteFrameDelivered` | `src/demuxers/demux_asf.c:863-972` | whatever arrived before, the fragments of a complete frame in order are delivered as exactly that frame |
| `AsfFragments.TimestampIsOwn` | `src/demuxers/demux_asf.c:881-900` | that frame carries its own time stamp if and only if the stream was idle when it began, or the unfinished frame before had the same one |
| `AsfFragments.TimestampLeftOver` | `src/demuxers/demux_asf.c:881-900` | a concrete loss after which a frame carries the time stamp of the frame before |
| `AsfFragments.CutMeaning` | `src/demuxers/demux_asf.c:922-970` | the buffers sent for a frame join up to it, fit the pool, share its time stamp, and exactly the last ends it |
| `AsfFragments.DirectContents` | `src/demuxers/demux_asf.c:806-860` | sent without defragmentation, no byte of a fragment is lost and only its first buffer has the time stamp |
| `AsfFragments.DirectEnds` | `src/demuxers/demux_asf.c:835-857` | no frame ends below the payload size, exactly one where it is reached |
| `AsfFragments.DirectEndsWhereFull` | `src/demuxers/demux_asf.c:835-857` | for any payload size, also a fragment that runs past it: a buffer ends a frame if and only if with it the bytes since the last end reach the payload size |
| `AsfFragments.UnmixedExactly` | `src/demuxers/demux_asf.c:775-803` | from an idle stream on, over fragments that have data: the buffers between two ends of frame are of one sequence number if and only if no fragment with offset 0 and another number comes while a frame is unfinished: the code does not end that frame |
| `AsfFragments.UnmixedByBuffers` | `src/demuxers/demux_asf.c:775-803` | the same from any position and with empty fragments too, in terms of the last buffer sent |
| `AsfFragments.FramesMixed` | `src/demuxers/demux_asf.c:775-803` | a concrete loss after which two frames reach the decoder as one |
| `AsfFragments.CompleteFrameSent` | `src/demuxers/demux_asf.c:768-861` | a complete frame sent directly joins up to its bytes with exactly one end of frame, on its last buffer |
| `AsfStream.Stream.SendBufferDefrag` | `src/demuxers/demux_asf.c:863-972` | the routine on its buffer is one step of the run: state and buffers sent are those of the fragment, whose bytes are those of the file where it stands, so a stream object stays faithful to the run over all fragments it was given |
| `AsfStream.Stream.SendBuffer` | `src/demuxers/demux_asf.c:922-970` | the buffer is emptied in pieces of the pool size |
| `AsfStream.Stream.SendBufferNodefrag` | `src/demuxers/demux_asf.c:768-861` | the routine is one step of the direct run over all fragments the stream was given, with the bytes of the file, and the input advances by the length of the fragment |
| `AsfStream.Stream.SendPieces` | `src/demuxers/demux_asf.c:806-860` | the loop sends what the recursive definition says |
| `AsfJournal.BufferFound` | `src/demuxers/demux_asf.c:768-972` | every buffer on a fifo is one of those that one of the fragments in the journal made its stream put there |
| `AsfJournal.SentStays` | `src/demuxers/demux_asf.c:768-972` | and these stand on the fifo together, between those of earlier and of later fragments |
| `AsfJournal.FramesAreOfFile` | `src/demuxers/demux_asf.c:863-972` | what a fragment makes a defragmenting stream put on its fifo is nothing or one frame in pieces: the bytes that the file has at the places of fragments of one sequence number whose offsets abut from 0 |
| `AsfJournal.FramesApart` | `src/demuxers/demux_asf.c:863-972` | no fragment goes into two frames |
| `AsfJournal.PiecesAreWhole` | `src/demuxers/demux_asf.c:768-861` | what it makes any other stream put there are its own bytes, the first buffer with 90 times its time stamp, or nothing exactly if it does not fit the position in the frame |
| `AsfJournal.WholeFrameStamped` | `src/demuxers/demux_asf.c:922-970` | a frame that one fragment completes goes out with 90 times its time stamp |
| `AsfDealing.WaitingEnds` | `src/demuxers/demux_asf.c:1445-1460` | a stream that waits is given a fragment if and only if it is the first of an object and meets the condition of the code: resynchronisation is wanted, and the time stamp is not below that of the keyframe found, or, if none was found, the payload is a keyframe with a time stamp above 0 |
| `AsfDealing.KeyframeAtZero` | `src/demuxers/demux_asf.c:1332-1344` | a keyframe with time stamp 0 does not end the waiting, and the next payload does, though it is no keyframe |
| `AsfDealing.AllHanded` | `src/demuxers/demux_asf.c:1318-1371` | a stream that does not wait is given all it is offered, in order, and goes on not to wait |
| `AsfDealing.NothingHanded` | `src/demuxers/demux_asf.c:1318-1371` | as long as no keyframe was found, a waiting stream is given nothing of a payload that is not marked as a keyframe |
| `AsfDealing.VisitGives` | `src/demuxers/demux_asf.c:1790-1798` | a stream that does not wait is given all that a payload holds, unless it is the video stream and the number is not the one due |
| `AsfDealing.GapMakesWait` | `src/demuxers/demux_asf.c:1205-1227` | after a gap the video stream waits and is given nothing of that payload, unless that is marked as a keyframe; new time stamps are announced |
| `AsfNumbering.GapMeans` | `src/demuxers/demux_asf.c:1173-1208` | which number makes a gap, in numbers: a stream at its beginning or waiting sees none; inside a frame it is any but the last number; between frames any but the last plus 1, modulo 256 to the number of bytes of the field, except that every number makes a gap where the field is shorter than the word, the last number is below -1 and the one behind it is not 0 in that modulus |
| `AsfNumbering.NumbersByExample` | `src/demuxers/demux_asf.c:1173-1208` | 2 follows 1, 0 follows 255 in one byte and 256 does in two, and 7 goes with 7 inside a frame |
| `AsfNumbering.UndamagedRun` | `src/demuxers/demux_asf.c:1786-1799` | payloads of whole frames whose numbers follow each other, for fields of one, two or four bytes and across the end of their range: the stream is given every frame, goes on not to wait, and nothing else changes |
| `AsfNumbering.NumberLeftOut` | `src/demuxers/demux_asf.c:1786-1799` | with any other number than the one that follows, the video stream waits and is given nothing more unless the payload is a keyframe |
| `AsfNumbering.FollowingIsDue` | `src/demuxers/demux_asf.c:1173-1208` | behind a payload of any number of frames, no gap is seen for exactly one number |
| `AsfDealing.OnlyOffersGiven` | `src/demuxers/demux_asf.c:1318-1371` | in any state, what enters the journal are offers, and they go to the stream they were offered to |
| `AsfDealing.SettledIsStep` | `src/demuxers/demux_asf.c:863-972` | sequence number, fill level and overflow, on which the check of the next number depends, are those of the step of the defragmenter |
| `AsfPackets.NextStartIsNext` | `src/demuxers/demux_asf.c:986-998` | the position sought is the first packet start at or after the current one |
| `AsfPackets.SkipLands` | `src/demuxers/demux_asf.c:1038-1044` | skipping a packet lands on the next start if and only if not more was read than the packet is long, or the packet size divides the word |
| `AsfPackets.SkipMisses` | `src/demuxers/demux_asf.c:1038-1044` | a packet size of 3, with which the search goes on off the grid |
| `AsfPackets.Demuxer.constructor` | `src/demuxers/demux_asf.c:582-585` | with streams that were handed nothing and empty fifos, the journal is empty and everything on the fifos is accounted for: the beginning of a run |
| `AsfPackets.Demuxer.FindPacket` | `src/demuxers/demux_asf.c:985-1046` | the search for a packet passes over no packet start but those flagged as invalid, and stops at the first that is not; for packet sizes from 16 bytes it stays on the grid |
| `AsfPackets.Demuxer.TryPacket` | `src/demuxers/demux_asf.c:1001-1045` | which packets are skipped, how long the error correction data is, when a file header stands there and when only its look-alike; it gives up only at the end of the file |
| `AsfPackets.Demuxer.ParsePacketHeader` | `src/demuxers/demux_asf.c:975-1132` | from any position: the header is on the grid, its fields stand in the file behind the first byte and the error correction data and what follows them comes next, and what is left of the packet is what was not read, but for 15 bytes exactly when its first byte is that of a file header |
| `AsfPackets.Demuxer.ReadFields` | `src/demuxers/demux_asf.c:1048-1122` | the fields stand in the file where flags and widths say, the number of payloads among them; data and padding make up the packet, or it is refused |
| `AsfExample.HeaderRead` | `src/demuxers/demux_asf.c:1048-1122` | a literal packet header: flags, packet length, number of payloads, and where the first of them begins |
| `AsfExample.FragmentRead` | `src/demuxers/demux_asf.c:1379-1436` | a literal payload with a fragment: stream, number, offset, object size, time stamp and length, and where the next begins |
| `AsfExample.GroupRead` | `src/demuxers/demux_asf.c:1270-1376` | a literal payload with two objects: their numbers, lengths, places and the time stamp of the first |
| `AsfExample.ValidFlags` | `src/demuxers/demux_asf.c:1001-1036` | the bytes that begin a packet that is not skipped |
| `AsfExample.PayloadIsFor` | `src/demuxers/demux_asf.c:1147-1158` | a payload is for the first stream with its number, if that is the one of the audio or video stream being played, and otherwise for none |
| `AsfPackets.BalanceKept` | `src/demuxers/demux_asf.c:1182-1266` | advancing by what is taken from the packet keeps position plus rest, in 32-bit arithmetic |
| `AsfPackets.Demuxer.ParsePayloadCommon` | `src/demuxers/demux_asf.c:1135-1267` | the stream is the first one with that number if it is selected, or none; the three numbers stand in the file one after the other, with the widths the segment type gives; the sequence number is checked for that stream and for no other; the packet loses what is read |
| `AsfPackets.Demuxer.CheckSeq` | `src/demuxers/demux_asf.c:1172-1227` | a gap is found exactly where the number differs from the one due (GapMeans says in numbers which that is), and then the decoder of that stream is told to start over behind what is on its fifo, new time stamps are announced, and a video stream waits with the keyframe time stamp cleared; without a gap nothing changes but that the stream is no longer at its beginning |
| `AsfPackets.Demuxer.Send` | `src/demuxers/demux_asf.c:1347-1367` | a stream that takes data is given exactly the fragment described, with the bytes of the file at the input position, and it goes into the journal; any other is given nothing. Sequence number and fill level become those of one step of the run. What is on every fifo stays what the journal says. The input advances by the fragment, except exactly where it does not fit the defragmenter |
| `AsfPackets.Demuxer.ResyncAndSend` | `src/demuxers/demux_asf.c:1445-1484` | the same behind the keyframe detection both parsers share: the fragment is offered to its stream, which may end the waiting if the fragment is the first of an object |
| `AsfPackets.Demuxer.ReadFragmentHeader` | `src/demuxers/demux_asf.c:1392-1436` | object size and time stamp stand in the file; a size of 0, or none, is replaced by the length of the fragment |
| `AsfPackets.Demuxer.ParsePayloadSingle` | `src/demuxers/demux_asf.c:1270-1376` | the stream, waiting or not, is offered all the objects of a payload with the length that stands in the file, one after the other, as whole frames with consecutive numbers, each behind its length byte, and a time stamp on the first only; what it is given is what offering them one by one comes to; the packet loses what is read |
| `AsfPackets.Demuxer.SendObjects` | `src/demuxers/demux_asf.c:1318-1371` | the loop: every object that begins within the length is offered, and no other |
| `AsfPackets.Demuxer.ParsePayloadMultiple` | `src/demuxers/demux_asf.c:1379-1486` | the stream is offered one fragment with offset and number of the header, which stands in the file behind them and has the length that stands there; with an object header of 8 bytes or more its object size and time stamp are the two numbers at the start of that, but for an object size of 0; otherwise object size and length are the same and the time stamp is 0; the packet loses what is read, but for a fragment that overflows the buffer |
| `AsfPackets.Demuxer.SendPayload` | `src/demuxers/demux_asf.c:1790-1798` | the sequence number is checked for the stream chosen by the number, and exactly these objects or this fragment, with object size and time stamp, are offered to it; no other stream changes; the payload is refused exactly if a length in it runs past the packet; position plus rest of the packet is kept |
| `AsfPackets.Demuxer.SendPayloads` | `src/demuxers/demux_asf.c:1786-1799` | the payloads of a packet are visited one behind the other, all or up to the first that is refused; each is what stands in the file; state of all streams, keyframe time stamp, announcement of time stamps and journal are those of checking and offering them in turn |
| `AsfPackets.Demuxer.SendChunk` | `src/demuxers/demux_asf.c:1770-1800` | from a packet header on the grid and from its fields on, the payloads are visited as they stand in the file, and what every stream is given, which streams wait, and what is missed for want of room is the fold of VisitedAll over them (UndamagedRun, NumberLeftOut, VisitGives and WaitingEnds say what that means); the bytes the input advances are those the packet lost; new in the journal are only fragments that stand behind the start of this packet; and in any run of the demultiplexer every fifo holds exactly what the fragments in the journal make their streams send (AllFaithful), hence EveryBufferIsOfFile |
| `AsfPackets.Demuxer.EveryBufferIsOfFile` | `src/demuxers/demux_asf.c:1770-1800` | the theorem about a whole run: every buffer on a fifo belongs to one frame, put together from the bytes that the file has at the places of fragments of one stream and one sequence number whose offsets abut from 0, or is part of one fragment of the file |
| `AviIndex.BlocksRoundUp` | `src/demuxers/demux_avi.c:509-514` | the block count of a chunk is its length over the block size rounded up, if and only if the length is more than minus one block, or one byte less divides evenly |
| `AviIndex.ChunksAreBlocks` | `src/demuxers/demux_avi.c:512-517` | without a block size the blocks of a stream are its chunks |
| `AviIndex.AppendKeepsSums` | `src/demuxers/demux_avi.c:274-296` | appending keeps tot and block_no of every entry the sums they stand for |
| `AviIndex.PaddedMeaning` | `src/demuxers/demux_avi.c:461` | the padded size covers header and data unless it wraps, and is zero for exactly two lengths |
| `AviIndex.ScanEnds` | `src/demuxers/demux_avi.c:424-530` | the scan of a file ends if and only if it meets no chunk of these two lengths |
| `AviIndex.ScanHalts` | `src/demuxers/demux_avi.c:461` | a concrete chunk on which it does not |
| `AviIndex.ScanExtends` | `src/demuxers/demux_avi.c:407-551` | every earlier state of a scan is a prefix of every later one |
| `AviIndex.ScanKeepsSums` | `src/demuxers/demux_avi.c:504-525` | along every scan all audio sums stay right |
| `AviIndex.PositionIsOwn` | `src/demuxers/demux_avi.c:453-458` | the position an entry records is that of its own data if and only if no list header stands directly before its chunk |
| `AviIndex.PositionNotOwn` | `src/demuxers/demux_avi.c:453-458` | a concrete file with a list header in front of a frame |
| `AviEntries.FrameIsGiven` | `src/demuxers/demux_avi.c:463-503` | a frame without a list header directly before its chunk is entered so that its length is that in the header, as a signed number, and reading by the entry gives the data of the chunk |
| `AviEntries.ChunkIsHeard` | `src/demuxers/demux_avi.c:504-525` | every chunk that is not cut off is entered in exactly the audio streams whose tag it bears, and reading by the entry gives its data |
| `AviEntries.ListIs` | `src/demuxers/demux_avi.c:452-458` | list headers are LIST and RIFF in letters of either case |
| `AviKeyframes.FlagsMean` | `src/demuxers/demux_avi.c:472-497` | a frame is marked as a keyframe exactly if: bit 6 of its first byte is clear (MS-MPEG-4 versions 2 and 3); bit 1 of its fifth byte is clear, or of its first byte where the file ends behind the fourth (version 1); its first four bytes are not 00 00 01 B6 (DivX 5, MPEG-4, XviD); always for any other compressor |
| `AviKeyframes.KeyframesAreTold` | `src/demuxers/demux_avi.c:424-530` | every frame of an index was entered by one turn of the scan, in order, and its mark is that of the bytes at the chunk of that turn |
| `AviKeyframes.KeyframeExamples` | `src/demuxers/demux_avi.c:472-497` | files of one frame, a keyframe and another for every compressor of MS-MPEG-4 |
| `AviKeyframes.Mpeg4Examples` | `src/demuxers/demux_avi.c:472-497` | and for the MPEG-4 compressors |
| `AviIndex.GivingUpIsTheEnd` | `src/demuxers/demux_avi.c:480-481` | giving up inside a chunk means the file has ended, unless the length wraps around |
| `AviIndex.Stopped` | `src/demuxers/demux_avi.c:353-397` | the stopper functions, with their backward search for a keyframe |
| `AviEntries.StartPosStops` | `src/demuxers/demux_avi.c:370-382` | a call that waits for a position stops if and only if the index has a keyframe from which on all frames are at or behind it |
| `AviEntries.StartTimeStops` | `src/demuxers/demux_avi.c:384-397` | and one that waits for a time, if and only if from a keyframe on all frames are late enough |
| `AviIndex.Indexer.IdxGrow` | `src/demuxers/demux_avi.c:407-551` | a call makes at least one turn; it ends exactly if some turn from here on satisfies its stopper, finds no chunk header, or gives up (its precondition is that, and without it the loop goes on forever); it stops at the first turn that satisfies the stopper, and leaves the index a state of the one scan (whose frames and keyframes FrameIsGiven and KeyframesAreTold describe) |
| `AviIndex.MovingCallEnds` | `src/demuxers/demux_avi.c:424-530` | every call ends while no chunk of the two lengths that take up nothing is met |
| `AviIndex.StalledCallEnds` | `src/demuxers/demux_avi.c:424-530` | and a call that comes to such a chunk ends if and only if it would have ended before or there, or the chunk is one of those it waits for: it is entered again in every turn |
| `AviIndex.Indexer.OneTurn` | `src/demuxers/demux_avi.c:442-528` | the loop body is one turn of the scan (FrameIsGiven, ChunkIsHeard and FlagsMean say what that enters) |
| `AviIndex.Indexer.PrefixOfWholeScan` | `src/demuxers/demux_avi.c:407-551` | on any file, after any series of calls with any stoppers the index is a prefix of what one scan builds by any later turn, and its sums are right |
| `AviIndex.ImportIndex` | `src/demuxers/demux_avi.c:958-995` | the import loop builds the index of the records |
| `AviIndex.ImportKeepsSums` | `src/demuxers/demux_avi.c:971-991` | the sums are right after the import as well |
| `AviEntries.ImportedFrames` | `src/demuxers/demux_avi.c:962-994` | the video entries are those of the records with the tag, in order, positions shifted, lengths signed, flags kept |
| `AviEntries.ImportedChunks` | `src/demuxers/demux_avi.c:962-994` | and so the chunks of every audio stream |
| `AviReading.Reader.Read` | `src/demuxers/demux_avi.c:1024-1138` | the reading loop does what the entry-wise definition says: bytes, end of frame, position, and failure at the end of the index or where the file does not have the bytes |
| `AviReading.ReadKeepsFaithful` | `src/demuxers/demux_avi.c:1024-1138` | a call gives bytes of one entry only, and keeps the receiver at exactly the frames of the finished entries plus the beginning of the current one |
| `AviReading.EveryRunIsSound` | `src/demuxers/demux_avi.c:1024-1138` | in every run with buffers of any sizes: the frames received are the non-empty entries in order; after the failing call all of them, or all but the last entry, or exactly those before the entry that the file does not hold |
| `AviReading.GrowthChangesNothing` | `src/demuxers/demux_avi.c:554-590` | a call that succeeds does the same on every longer index: growing the index on the way changes no entry and no read |
| `AviReading.GrowingIndexReadsAlike` | `src/demuxers/demux_avi.c:554-590` | so what can be read of the video entries the indexer has is what can be read at any later turn of its scan |
| `AviReading.GrowingTrackReadsAlike` | `src/demuxers/demux_avi.c:554-590` | and likewise of the chunks of each audio stream |
| `AviReading.LastFrameLost` | `src/demuxers/demux_avi.c:1041-1048` | the last entry is lost if and only if the buffer has room for more than its rest, or the file does not have what is asked for |
| `AviReading.ByteLost` | `src/demuxers/demux_avi.c:1041-1048` | a frame of one byte that is lost to a buffer of two |
| `Film.SearchTime` | `src/demuxers/demux_film.c:767-782` | on any table, sorted or not: pts[best] <= target < pts[best+1] |
| `Film.BackToKeyframe` | `src/demuxers/demux_film.c:784-790` | the nearest keyframe at or before, or the start |
| `Film.BackToAudio` | `src/demuxers/demux_film.c:792-802` | the nearest sound sample that is earlier than the keyframe, or the start |
| `Film.FirstPassIsKeyframe` | `src/demuxers/demux_film.c:372-404` | while the gate waits, the first video sample dispatched is the first keyframe |
| `Film.Demuxer.SendChunk` | `src/demuxers/demux_film.c:372-656` | while the gate waits no picture passes but a keyframe, and exactly that opens it; every other sample passes in its turn; a stereo sample is read from where the input stands and comes out interleaved; a sample that the file does not have ends the stream |
| `Film.Demuxer.SeekTime` | `src/demuxers/demux_film.c:709-807` | from the sample for the time the seek goes back to the nearest keyframe at or before it, or the start, and from there to the nearest sample of sound that is earlier than the keyframe, or the start; it waits exactly if the stream is running; the input stays where it is |
| `Film.Demuxer.SeekAndPlay` | `src/demuxers/demux_film.c:709-807` | after a seek in a running stream the first picture dispatched is a keyframe at or before the sample for the time, if there is one |
| `Film.Demuxer.SendSample` | `src/demuxers/demux_film.c:404-653` | pictures and mono sound are read from their place in the file, stereo sound from where the input stands; the input stands behind what was read, and the buffers of stereo sound join up to the interleaved bytes read |
| `Film.Demuxer.CutMeans` | `src/demuxers/demux_film.c:420-653` | a sample that is read is cut off exactly if its last byte is not in the file |
| `Film.SoundInPlace` | `src/demuxers/demux_film.c:584-593` | in a table of adjoining samples, the n-th sample from here on, if it is sound, is read from its own place if and only if a picture was sent before it, or the input stood where the first of these samples begins, plus the pictures passed over while the gate waited |
| `Film.SoundMisplaced` | `src/demuxers/demux_film.c:392-399` | a picture passed over by the gate, and the sound behind it is read from where the picture begins |
| `Film.SendStereo` | `src/demuxers/demux_film.c:584-653` | the buffers sent join up to the two halves of the chunk, interleaved sample by sample |
| `Film.InterleavingIsFair` | `src/demuxers/demux_film.c:621-645` | every byte of both halves goes to exactly one place |
| `Film.InterleavedByExample` | `src/demuxers/demux_film.c:584-653` | four bytes of narrow and eight bytes of wide sound |
| `Reblocking.SpecMeaning` | `src/audio_out/audio_sun_out.c:636-671` | the specification: passed on and held back are what they are if and only if nothing is lost or reordered, whole blocks go out, and less than a block stays |
| `Reblocking.NextWrite` | `src/audio_out/audio_sun_out.c:640-668` | the place where one write has to be split, for any fill level |
| `Reblocking.SunDriver.Write` | `src/audio_out/audio_sun_out.c:636-671` | refines the specification in every run of writes; every single device write is whole blocks |
| `Reblocking.SunDriver.Flush` | `src/audio_out/audio_sun_out.c:674-680` | puts out what is held and starts afresh |
| `Reblocking.EsdDriver.Write` | `src/audio_out/audio_esd_out.c:250-311` | refines the same specification |
| `Reblocking.EsdDriver.SendBlocks` | `src/audio_out/audio_esd_out.c:270-310` | the branch with at least one complete block |
| `Reblocking.DriversAgree` | `src/audio_out/audio_sun_out.c:636-671` | both drivers, given the same bytes in writes of any sizes, have written the same bytes and hold the same |

## Left out

- PluralDriver.GettextParse: the stale semantic value of tokens that have none is not modelled; no action reads it.
- PluralForms.PluralLookup: the value of the plural expression is a parameter; division by zero, which traps in the
  source, is the missing result of evaluation. `unsigned long` has 32 bits.
- PluralForms.PluralSetup: of the two ways to read the number, the one with `strtoul` is modelled. The header is the
  translation of the empty message; that it is looked up first is not part of this method.
- Catalogue.FindMsg: byte swapping of foreign catalogues, conversion by `iconv` and its cache are not modelled; the
  hash table's prime size, free slot and reachability of its entries are stated as what a well-formed file has.
- Gettext.Process.DcigetText: catalogue loading is a function of directory, locale, category and domain, fixed for a
  run, as are the environment and the working directory; `tfind` and `tsearch` are a map; errno, locks and failing
  allocation are left out.
- L10nList.L10nFileList.Make: the loaded data of a node is not modelled. That the recursion ends is proved; that the
  successors form no cycle is not, because distinct masks can give one file name.
- LocaleExplode.ExplodeName: characters are those of the "C" locale; the allocation of the normalized codeset cannot
  fail.
- AsfReorder.Reorder: requires h, w and b positive; the source computes w by a division by b and calls it only for
  h and w above 1.
- AsfPackets.Demuxer.SendChunk: a packet is shorter than 2 GiB. A whole file header in the place of a packet ends the
  model's run (the source reads it and starts over), and so does the length of a fragment of 2 GiB or more, which the
  source would hand on as a negative number. A payload of several objects that claims 2 GiB or more ends it too; that is
  a limit of the model only, because the lengths of the objects are single bytes. Orders to a decoder to start over are
  stated for one check (CheckSeq), not again for a whole packet. Reading the file header, reference lists and seeking
  are not modelled.
- AsfPackets.Demuxer.EveryBufferIsOfFile: the decoder headers that are put on the fifos before the first packet are left
  out: the fifos are empty at the start. Of a fragment that runs past the end of the file nothing is claimed.
- AsfFragments.UnmixedExactly: an empty fragment gets no buffer, and may leave a frame open without being seen; such
  runs are those of UnmixedByBuffers.
- AsfStream.Stream.SendBufferDefrag: discontinuity and frame rate estimation (`check_newpts`), stream positions for the
  user interface and buffer types are left out; what a short read leaves in a buffer is unspecified. Streams are
  restarted by seeking, which begins a new history.
- AviIndex.Indexer.IdxGrow: the file does not change between calls; progress events are left out; the comparison of
  times is a parameter of the stopper, because the source computes it in floating point. Index arrays are sequences:
  their growth in steps of 4096 entries is not modelled.
- AviReading.Reader.Read: works on the entries of one index; that it grows in between is not part of a call, but no
  successful read notices it (GrowingIndexReadsAlike, GrowingTrackReadsAlike). Asking the input for a negative number of
  bytes counts as a failed read; an input that answers -1 to a request for -1 would be taken for success.
- Film.Demuxer.SendChunk: what is sent of pictures and of mono sound, and the messages about new time stamps, are not
  modelled; of pictures and mono sound only where the input stands afterwards. A Cinepak picture is taken to have at
  least the 10 bytes that are read first. Seeking by byte position is left out, because its loop need not make progress.
- Reblocking.SunDriver.Write: device writes are complete. The block size of the ESD driver is a parameter, because the
  header that defines it is not part of this model.
- Video and audio time stamps of AVI files, the AVI seek, and the ASF seek are not modelled: they are floating-point or
  depend on the last probe rather than on the state they leave.
- All other demultiplexers, device drivers, plugin tables, file opening and I/O loops are not modelled; they would add
  easier copies of the same loop properties, or are calls into the operating system.
