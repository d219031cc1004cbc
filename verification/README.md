# Verification of the QR encoder, the JSON parser, the sync table and the recorder

A Dafny model of four components of the repository, with proofs. `dafny verify dfyconfig.toml`
checks everything.

**QR encoder** (`public/javascripts/qrcode.js`). `Bits.dfy` and `Gf256.dfy` define the arithmetic of
ISO/IEC 18004:2015, section 7.5, without tables, `AlphaPowers.dfy` and `FieldOrder.dfy` prove it a field whose
nonzero elements are the 255 powers of alpha; `QrMath.dfy` fills the program's exponent and
logarithm tables and proves them against it. `Polynomial.dfy` holds the algebra of polynomials over
the field, `QrPolynomial.dfy` the program's `multiply` and `mod`, `ErrorCorrection.dfy` the generator
and the check bytes, `Interleave.dfy` and `Codewords.dfy` the order of the codewords and the padding,
`BitBuffer.dfy` and `DataBits.dfy` the bits of the data list, `Zigzag.dfy` the order of the modules, as the
program walks it and in coordinates, `MapData.dfy` the placement under a mask, and `Bch.dfy` the format and
version codes. `Symbols.dfy` puts them together, for arbitrary block lists,
sizes and reserved modules: what is read off a finished symbol is the data list, exactly when every length
fits its length field. `RsBlocks.dfy` holds the program's block table, and with it every symbol the program
makes reads back. `VersionChoice.dfy` holds its list of lengths, proves it against the block table and the
length fields, and chooses the version; `QrTexts.dfy` has the bytes of a text and the length it is looked up with.

**JSON parser** (`public/javascripts/jsonlint.js`). `JsonParser.dfy` is the shift/reduce machine with its
table, `JsonGrammar.dfy` the trees of section 2 of RFC 8259 with their tokens and values,
`JsonComplete.dfy` and `JsonSound.dfy` the two halves of the theorem that the machine returns a value
exactly on the token sequences that start with a derivation, and that it is the value of the
derivation. `Regex.dfy` and `JsonLexer.dfy` give the lexer's rules as backtracking regular expressions;
`JsonLexemes.dfy` the lexical grammar of RFC 8259 in literal characters, `JsonScan.dfy` and `JsonRead.dfy` the
two directions between them. `JsonText.dfy` puts both grammars together: a value is read exactly from the
texts of RFC 8259, with the wider white space of ECMAScript. `JsonMeaning.dfy` and `JsonNumbers.dfy` say what
string and number lexemes become, `JsonWriting.dfy` which values have a text, and `JsonComposition.dfy` how
texts compose. `JsonLint.dfy` is the imperative lexer and parse loop, proved equal to the machine.

**Sync table** (`go/sql/sync_table.go`, `go/sql/user_device.go`). `SyncSpec.dfy` has the tables as values and the
laws of merging, `SyncRounds.dfy` dumps, deltas, replacement, runs of all operations and two tables
exchanging changes over any number of rounds, `SyncHistory.dfy` what any run leaves for one key, and
`SyncTable.dfy` the classes whose methods implement them in place.

**Recorder** (`browser/deps/recorder.js`). `Wav.dfy` has the file format and quantisation, `Recorder.dfy` the
worker and what an export yields after any run of messages.

Where the code falls short of a simpler promise, the exact condition is proved:

- The block table's row for version 15 at level H lacks its second group of blocks: 396 of 655 codewords
  are used. All other rows fill their symbols (`RsBlocks.RowsFillTheirSymbols`).
- The list that versions are chosen from says 220 bytes for that row, which holds 129: at level H a text of
  195 to 220 bytes is sent to it and then turned down (`VersionChoice.ListedIsHeld`, `VersionChoice.ChosenHolds`).
- A character outside the basic plane is counted as four bytes and written as six, so that one of them alone
  is turned down at level H (`QrTexts.TextHeld`, `QrTexts.PairNotHeld`). U+0080 and U+0800 are not written as
  UTF-8 has them (`QrTexts.Utf8But`).
- A JSON string is not always read as RFC 8259 has it: an escaped slash keeps its backslash, `\u` stays as it
  is, and an escaped backslash swallows a plain n, r, t, v, f or b behind it (`JsonMeaning.UnescapeItem`,
  `JsonMeaning.UnescapeStandard`). So some strings have no text at all (`JsonMeaning.SayableExactly`).
- A row stored with an empty state, or under an empty id, does not survive a dump; everything else does
  (`SyncRounds.DumpReplay`).
- An exchange leaves a key different exactly if it differs and no side wins it with an entry that can travel:
  ties with different contents, differences dated at or before the mark, empty stored states and empty ids
  (`SyncRounds.RoundConverges`, `SyncRounds.TiesStay`). A replacement leaves no trace of the keys it drops
  (`SyncRounds.ReplacementUnsettles`).
- A pushed key is missing from the next delta for a mark at or after all its pushed times
  (`SyncRounds.PushSeenLater`).
- With three or more channels only the first is exported, so that only an empty recording reads back
  (`Recorder.ExportedRun`, `Recorder.ThreeChannelsFail`).
- A WAV file whose size does not fit 32 bits gets wrong length fields (`Wav.FileLengths`).

Two limits of the functions lie outside the program's own table and are never reached with it
(`RsBlocks.TableBlocks`, `Symbols.MakeSymbol`): a segment longer than its length field counts would be encoded
and read back wrongly (`DataBits.DataRoundTrip`, `DataBits.BytesFit`), and 255 check bytes give a generator
with a zero coefficient (`ErrorCorrection.GeneratorZero`). The parse loop never takes its accept entry, and the
lexer never reaches its lexical error (`JsonSound.NeverAccepts`, `JsonLexer.RuleFound`).

Conventions. A slot of a JavaScript array that was never assigned is a `Hole`, which `^` reads as zero.
`Result` and `Outcome` stand for exceptions. Clocks are parameters. Block data, token texts and samples
are plain sequences; recorder samples are real numbers. `Arithmetic.dfy`, `Sequences.dfy` and
`Wrappers.dfy` hold what several components share. Shifts and exclusive or on the BCH codes are
those of signed 32-bit integers.

## Model

| member | source | states |
|---|---|---|
| `QrMath.QRMath.constructor` | public/javascripts/qrcode.js:136-138 | the two tables hold the powers of alpha and their inverse: for every nonzero byte, looking its logarithm up gives the byte back |
| `QrMath.QRMath.FillExp` | public/javascripts/qrcode.js:136-137 | the eight shifts and the four-term recurrence fill the table with the powers of alpha of the field, for all 256 slots |
| `QrMath.QRMath.FillLog` | public/javascripts/qrcode.js:138 | after the loop every nonzero byte has a logarithm below 255 that leads back to it |
| `QrMath.AlphaRecurrence` | public/javascripts/qrcode.js:137 | the recurrence is the one the field polynomial of section 7.5 dictates, at every index |
| `QrMath.QRMath.Glog` | public/javascripts/qrcode.js:133-134 | throws exactly on zero; otherwise the exponent of the byte, and NaN for an unassigned slot |
| `QrMath.QRMath.Gexp` | public/javascripts/qrcode.js:134-136 | for every integer exponent, negative or large, the field element with that exponent modulo 255 |
| `FieldOrder.AlphaOrder` | public/javascripts/qrcode.js:134-138 | alpha has order exactly 255, which is why reducing exponents by 255 is right |
| `FieldOrder.LogarithmExists` | public/javascripts/qrcode.js:138 | every nonzero byte is a power of alpha below 255, so the logarithm table has no hole |
| `Gf256.MulAssociates` | public/javascripts/qrcode.js:134-136 | the product the two tables stand for is associative (with commutativity and distributivity beside it, a field) |
| `FieldOrder.NoZeroDivisors` | public/javascripts/qrcode.js:133-136 | a product is zero exactly if a factor is, the case the tables cannot express |
| `QrPolynomials.NewPolynomial` | public/javascripts/qrcode.js:139-141 | leading zeros are stripped and the requested tail of unassigned slots is appended |
| `QrPolynomials.StripSame` | public/javascripts/qrcode.js:140-141 | stripping leading zeros does not change the polynomial, and leaves no leading zero |
| `QrPolynomials.AddMultiple` | public/javascripts/qrcode.js:142-145 | the inner loop of both operations adds a multiple of the divisor in place and touches nothing else; it throws exactly on a zero coefficient |
| `QrPolynomials.Multiply` | public/javascripts/qrcode.js:142-143 | every coefficient of the result is the convolution of the operands; throws exactly when a zero coefficient is met |
| `QrPolynomials.DivisionStep` | public/javascripts/qrcode.js:144-146 | one division round: the leading term is cancelled by the multiple of the divisor with the logarithm difference, and the polynomial gets shorter |
| `QrPolynomials.Mod` | public/javascripts/qrcode.js:143-146 | terminates because the length falls; the result is shorter than the divisor and differs from the dividend by a multiple of the divisor, given as a quotient; throws exactly when the divisor has a zero coefficient, in front or later, and a step is taken |
| `ErrorCorrection.GeneratorRatio` | public/javascripts/qrcode.js:123-124 | a closed product relation between neighbouring coefficients of the generator (Gaussian binomials) |
| `ErrorCorrection.GeneratorNonZero` | public/javascripts/qrcode.js:123-124 | no coefficient of the generator is zero up to degree 254, so neither multiply nor mod calls glog(0) |
| `ErrorCorrection.GeneratorZero` | public/javascripts/qrcode.js:123-124 | at degree 255 the generator does have a zero coefficient: the bound is sharp |
| `ErrorCorrection.GeneratorRoots` | public/javascripts/qrcode.js:123-124 | the generator of degree n vanishes at alpha^0 .. alpha^(n-1) |
| `ErrorCorrection.RootsExhaust` | public/javascripts/qrcode.js:115-116 | a polynomial shorter than the generator that vanishes at all its roots is zero |
| `ErrorCorrection.GetErrorCorrectPolynomial` | public/javascripts/qrcode.js:123-124 | returns that generator for every length up to 255 and throws exactly beyond |
| `ErrorCorrection.CheckBytes` | public/javascripts/qrcode.js:115-116 | for any data block: exactly ecCount check bytes, left-padded with zeros, such that data and check bytes vanish at alpha^0 .. alpha^(ecCount-1); throws exactly for 256 or more, or for 255 with data that is not all zero |
| `ErrorCorrection.CodewordUnique` | public/javascripts/qrcode.js:115-116 | the check bytes are the only ones that make the block a codeword |
| `Interleaving.PositionInjective` | public/javascripts/qrcode.js:118-119 | no two entries of the blocks share a slot of the interleaved sequence |
| `Interleaving.PositionSurjective` | public/javascripts/qrcode.js:118-119 | every slot of the interleaved sequence is filled |
| `Interleaving.PositionOrder` | public/javascripts/qrcode.js:118-119 | entries come by their index, and those of one index in the order of the blocks |
| `Interleaving.InterleaveRoundTrip` | public/javascripts/qrcode.js:118-119 | de-interleaving recovers every block, whatever the lengths |
| `Interleaving.DeinterleaveRoundTrip` | public/javascripts/qrcode.js:118-119 | interleaving recovers every sequence of the total length |
| `Codewords.SpreadColumn` | public/javascripts/qrcode.js:118-119 | one round of the outer loop writes one column, in block order, and nothing else |
| `Codewords.Spread` | public/javascripts/qrcode.js:118-119 | the nested loops write the interleaving of the blocks and leave the rest of the array |
| `Codewords.EncodeBlock` | public/javascripts/qrcode.js:115-116 | a block takes its bytes from the buffer at the running offset and gets the check bytes of CheckBytes |
| `Codewords.TotalCodeCount` | public/javascripts/qrcode.js:117 | the loop sums the total counts of the blocks |
| `Codewords.CreateBytes` | public/javascripts/qrcode.js:115-120 | for any list of blocks: every one of totalCodeCount slots is filled, data columns first and check columns after; throws exactly when some block cannot be encoded |
| `BitBuffer.QRBitBuffer.PutBit` | public/javascripts/qrcode.js:150-152 | appends one bit to the list of bits the bytes stand for |
| `BitBuffer.QRBitBuffer.Put` | public/javascripts/qrcode.js:150 | appends the low bits of the number, the highest first |
| `BitBuffer.QRBitBuffer.Get` | public/javascripts/qrcode.js:150 | reads the bit at an index |
| `BitBuffer.NumberFits` | public/javascripts/qrcode.js:150 | a number written with put reads back exactly if it fits the width |
| `BitBuffer.BitsOfNumber` | public/javascripts/qrcode.js:150 | bit i from the left is worth 2^(length - 1 - i), and the bits together are the number modulo 2^length |
| `DataBits.PaddedShape` | public/javascripts/qrcode.js:110-114 | terminator and padding keep the data as a prefix, give exactly the capacity, and put four zeros behind the data when there is room |
| `DataBits.PaddedPattern` | public/javascripts/qrcode.js:110-114 | behind data and terminator come zeros up to a whole byte, then 0xEC and 0x11 in turn |
| `Codewords.WriteSegment` | public/javascripts/qrcode.js:103 | mode, length and bytes of one segment are appended |
| `Codewords.AlignBuffer` | public/javascripts/qrcode.js:111 | zeros up to a whole byte |
| `Codewords.PadBuffer` | public/javascripts/qrcode.js:110-114 | the terminator if four bits are left, then alignment, then pad bytes: as specified by Padded |
| `Codewords.PadWithBytes` | public/javascripts/qrcode.js:112-114 | the two pad bytes alternate up to the capacity |
| `DataBits.GetLengthInBits` | public/javascripts/qrcode.js:124 | a length field of 8 to 16 bits; throws exactly for an unknown mode or a version above 40 (below 1 it answers as for 10 to 26); VersionChoice.ListedIsHeld fixes the width for bytes in every version |
| `DataBits.SegmentLayout` | public/javascripts/qrcode.js:103 | a segment in the stream: the mode in four bits, the length in its field exactly if it fits, and then the bytes |
| `DataBits.BytesFit` | public/javascripts/qrcode.js:103-110 | a list of byte segments, the only kind the program makes, that passes the overflow test of a symbol with less data than its length field counts has no segment too long for its length field |
| `DataBits.DataRoundTrip` | public/javascripts/qrcode.js:103-115 | reading mode, length and bytes back gives the data list exactly if every length fits its length field, with a terminator or without |
| `Codewords.CreateData` | public/javascripts/qrcode.js:103-115 | exactly totalDataCount*8 bits whenever it does not throw; throws exactly for an unknown mode or version, for too many bits, or when a block cannot be encoded |
| `Codewords.BufferReadBack` | public/javascripts/qrcode.js:115-120 | de-interleaving the codewords and stringing the data blocks together gives the buffer back |
| `Codewords.CodewordsRoundTrip` | public/javascripts/qrcode.js:103-120 | the data list survives createData exactly if every length fits its length field |
| `Zigzag.WalkInside` | public/javascripts/qrcode.js:100-103 | every step of the zigzag is inside the symbol, outside column 6, and a cell of its own |
| `Zigzag.WalkCovers` | public/javascripts/qrcode.js:100-103 | every cell outside column 6 is a step of the zigzag |
| `Zigzag.CountIsAhead` | public/javascripts/qrcode.js:100-103 | the walk meets free cells in the order of ISO/IEC 18004, given in coordinates: by pairs of columns from the right, in each pair by rows from the end it starts at, and in each row the right cell first; the number met before a cell is the number of free cells before it |
| `Zigzag.CellByCell` | public/javascripts/qrcode.js:100-103 | that order one cell at a time: the bottom right cell has none before it, a left cell follows the one on its right, then comes the next row, upwards in the first, third, ... pair and downwards in the others, and at the edge the next pair |
| `MapData.GetMask` | public/javascripts/qrcode.js:123-124 | throws exactly for a pattern above 7 |
| `MapData.MaskPatterns` | public/javascripts/qrcode.js:123-124 | the eight patterns of section 7.8 as checkerboards, stripes, blocks of two by three, and conditions on the product of row and column modulo six |
| `MapData.MaskRepeats` | public/javascripts/qrcode.js:123-124 | every pattern repeats every twelve rows and columns |
| `MapData.PlaceCell` | public/javascripts/qrcode.js:100-102 | the innermost body: a free module gets its masked bit and the bit position moves on; a reserved one is left |
| `MapData.PlaceStrip` | public/javascripts/qrcode.js:100-103 | the while loop: one strip of two columns, turning round at the edge |
| `MapData.PlaceData` | public/javascripts/qrcode.js:100-103 | for any odd size and any reserved modules: each free module outside column 6 carries the bit whose number is the number of free modules before it in the order of coordinates, under the mask, and zero after the last codeword; stops only for a bad mask with a free module |
| `MapData.NothingEmpty` | public/javascripts/qrcode.js:100-103 | reserved modules keep their colour, and outside column 6 nothing stays empty |
| `MapData.ReadPlaced` | public/javascripts/qrcode.js:100-103 | reading along the same walk with the mask off gives the bits back in order |
| `MapData.ReadModulesAt` | public/javascripts/qrcode.js:100-103 | the reader takes each free module at its place in the order of coordinates |
| `Symbols.StreamIsBits` | public/javascripts/qrcode.js:100-103 | those bits are the bits of the codewords, then zeros |
| `Symbols.SymbolRoundTrip` | public/javascripts/qrcode.js:90-103 | from the data list to the modules and back: a symbol with room for its codewords reads back as the data list, under any of the eight masks, exactly if every length fits its length field |
| `Symbols.Make` | public/javascripts/qrcode.js:90-91 | creating the codewords and mapping them, in place: it goes through exactly when the modes are known, the bits fit and the mask exists (fewer than 255 check bytes a block), and what goes through reads back |
| `RsBlocks.RowSound` | public/javascripts/qrcode.js:147 | every one of the 160 rows: between 7 and 30 check codewords a block, less data than a byte-mode length field counts, and as many codewords as the symbol has room for, but for one row |
| `RsBlocks.RowsFillTheirSymbols` | public/javascripts/qrcode.js:147 | a row uses every codeword its symbol has room for (Table 1 of the standard) exactly if it is not that of version 15 at level H, which lacks its second group of blocks |
| `RsBlocks.GetRSBlocks` | public/javascripts/qrcode.js:147-149 | throws exactly outside the forty versions and four levels, and otherwise lists all blocks of the row |
| `RsBlocks.TableBlocks` | public/javascripts/qrcode.js:147-149 | the block list of any version and level can be encoded, holds less data than a length field counts, and fits its symbol |
| `Symbols.MakeSymbol` | public/javascripts/qrcode.js:88-103 | the path the program takes, with its own block table and byte segments: it goes through exactly for the forty versions, four levels, eight masks and data that fits, and whatever goes through reads back, without further condition |
| `VersionChoice.ListedIsHeld` | public/javascripts/qrcode.js:103-152 | for every version and level a text of k bytes fits the data codewords of the block table exactly if k is at most the entry of QRCodeLimitLength, or 129 where version 15 at level H is listed with 220 |
| `VersionChoice.GetTypeNumber` | public/javascripts/qrcode.js:469-503 | the first version whose entry is long enough; throws exactly beyond the entry of version 40 |
| `VersionChoice.ChosenHolds` | public/javascripts/qrcode.js:469-503 | the version chosen for a text by its length is the smallest one that holds it, exactly unless the level is H and the text has 195 to 220 bytes, which no version chosen holds |
| `QrTexts.ParseData` | public/javascripts/qrcode.js:29-62 | the bytes of every unit in turn, with a byte order mark in front exactly if some unit is above 0x80 |
| `QrTexts.Utf8But` | public/javascripts/qrcode.js:37-54 | a character of the basic plane is written as UTF-8 has it exactly if it is not U+0080 or U+0800 |
| `QrTexts.TextHeld` | public/javascripts/qrcode.js:469-508 | a text fits the version chosen for it exactly if its bytes are within the entry of the list, or 129; without surrogates, unless the text is its own length, they always are within the entry |
| `QrTexts.PairNotHeld` | public/javascripts/qrcode.js:469-508 | a single character outside the basic plane at level H is sent to version 1, which does not hold it |
| `Bch.GetBCHDigit` | public/javascripts/qrcode.js:122-123 | the number of binary digits |
| `Bch.Reduce` | public/javascripts/qrcode.js:120-122 | the loop of both codes terminates; the remainder has fewer digits than the generator, and what was taken away is a multiple of it over GF(2) |
| `Bch.GetBCHTypeInfo` | public/javascripts/qrcode.js:120-121 | for every non-negative input, the signed 32-bit integer whose digits, with the mask 0x5412 off, are the data shifted by ten and low digits below 2^10, together a multiple of 0x537 |
| `Bch.GetBCHTypeNumber` | public/javascripts/qrcode.js:121-122 | the same with twelve digits and the generator 0x1F25, without a mask |
| `Bch.BchCodewordUnique` | public/javascripts/qrcode.js:120-122 | the check digits are determined by the data |
| `Bch.Generators` | public/javascripts/qrcode.js:120 | both generators and the mask are the sums of the powers of two listed |
| `Bch.PublishedWords` | public/javascripts/qrcode.js:120-122 | format data 5 and version 7 have exactly the words of the examples of the standard |
| `JsonValues.UnescapePlain` | public/javascripts/jsonlint.js:12-19 | the chain of replacements leaves a text without a backslash alone |
| `JsonValues.IntTextValue` | public/javascripts/jsonlint.js:22 | the value of the decimal text of an integer is that integer |
| `JsonNumbers.NumberForms` | public/javascripts/jsonlint.js:22 | the value of a number of any form, with or without sign, fraction and exponent: its digits as one integer, scaled down by the digits behind the point and scaled by the exponent |
| `JsonNumbers.ExponentForms` | public/javascripts/jsonlint.js:22 | the exponent after e or E, with plus, minus or no sign; none scales by nothing |
| `JsonNumbers.DecimalsExactly` | public/javascripts/jsonlint.js:22 | the values of number lexemes are exactly the finite decimals |
| `JsonMeaning.UnescapeTwice` | public/javascripts/jsonlint.js:12-19 | the seven replacements come to two passes: one drops backslashes, one puts in control characters |
| `JsonMeaning.UnescapeItem` | public/javascripts/jsonlint.js:12-19 | what becomes of each item of a string, whatever follows: in particular an escaped slash keeps its backslash, a \u escape stays as it is, and an escaped backslash swallows a plain n, r, t, v, f or b |
| `JsonMeaning.UnescapeStandard` | public/javascripts/jsonlint.js:12-19 | a string without \u escapes is read as RFC 8259 has it exactly if no slash is escaped and no escaped backslash stands before a plain n, r, t, v, f or b |
| `JsonMeaning.SayableExactly` | public/javascripts/jsonlint.js:12-19 | the texts a string can be read as: exactly those with no control character but six and no backslash before n, r, t, v, f or b |
| `JsonParser.Start` | public/javascripts/jsonlint.js:58-64 | the three stacks start in the invariant |
| `JsonParser.NextInverse` | public/javascripts/jsonlint.js:52 | a shift or goto enters a state only by its accessing symbol and only from a state it may lie on |
| `JsonParser.ReduceState` | public/javascripts/jsonlint.js:52 | whatever the lookahead, a state reduces by one production only |
| `JsonParser.HandleOnTop` | public/javascripts/jsonlint.js:198-230 | when the table says reduce, the right side of the production is on the stack, a goto for its left side exists below it, and the values are of the kinds the semantic action needs |
| `JsonParser.ActionShape` | public/javascripts/jsonlint.js:8-51 | each semantic action gives a value of the kind its left side stands for |
| `JsonParser.StepKeeps` | public/javascripts/jsonlint.js:100-237 | every iteration keeps the stack invariant and lowers the measure: tokens left, then height of the stack, then rank of the symbol on top |
| `JsonComplete.ParserComplete` | public/javascripts/jsonlint.js:57-237 | for every value tree of any depth the loop, on its tokens and EOF and whatever follows, returns its value; of two members with one key the later counts |
| `JsonSound.RunSound` | public/javascripts/jsonlint.js:99-237 | along any run: the stack spells a forest of derivations whose meanings are the values, a token on top is the one yytext holds, and what is returned is the meaning of a derivation of the tokens read |
| `JsonSound.NeverAccepts` | public/javascripts/jsonlint.js:233-234 | the accept entry, which would return true, is never reached |
| `JsonSound.ParserSound` | public/javascripts/jsonlint.js:57-237 | whatever is returned is the value of a derivation of JSONText at the start of the tokens |
| `JsonSound.ParserCorrect` | public/javascripts/jsonlint.js:57-237 | a value is returned exactly on token sequences that start with a derivation of JSONText, and it is its meaning |
| `JsonSound.MeaningUnique` | public/javascripts/jsonlint.js:7-52 | two derivations of the same tokens have the same value |
| `JsonLexer.RuleFound` | public/javascripts/jsonlint.js:315-346 | some rule always matches, and takes at least one character unless it is the end rule: the lexical error is unreachable and lexing terminates |
| `JsonLexer.TokensStep` | public/javascripts/jsonlint.js:298-355 | one match of the lexer is one step of the token sequence of a text |
| `JsonLint.Lexer.constructor` | public/javascripts/jsonlint.js:251-259 | the lexer starts at the beginning of the text |
| `JsonLint.Lexer.Next` | public/javascripts/jsonlint.js:298-347 | consumes the match of the first rule that matches, sets yytext and done, and loses no character |
| `JsonLint.Lexer.Lex` | public/javascripts/jsonlint.js:348-355 | skips white space and yields the next token of the remaining text |
| `JsonLint.ParseText` | public/javascripts/jsonlint.js:57-239 | the imperative loop over lexer, stacks and lazily fetched lookahead: a value is returned exactly if the text writes down a tree of RFC 8259, and then its meaning |
| `JsonScan.LexSpelling` | public/javascripts/jsonlint.js:372-406 | a string, number or fixed token of the grammar is lexed back, whatever follows it that does not run together with it |
| `JsonRead.RuleTakes` | public/javascripts/jsonlint.js:372-406 | whatever one rule takes is white space of the list, the spelling of a lexeme with no letter or digit behind a word, an invalid character, or the end |
| `JsonText.LexSpelled` | public/javascripts/jsonlint.js:298-406 | a text spelled out of lexemes, with any white space of the list between them, is lexed to them |
| `JsonText.LexSound` | public/javascripts/jsonlint.js:298-406 | if no token is invalid, the text is the spelling of the tokens with nothing but white space of the list between them |
| `JsonText.LexCorrect` | public/javascripts/jsonlint.js:298-406 | the lexer yields given lexemes and the end exactly on the texts spelled out of them |
| `JsonText.TextCorrect` | public/javascripts/jsonlint.js:57-406 | for every text: a value is read exactly if the text writes down a tree of the grammar of RFC 8259, with its strings, numbers and names and the white space of ECMAScript, and the value is the meaning of the tree |
| `JsonWriting.ReadableExactly` | public/javascripts/jsonlint.js:7-406 | the values some text denotes are exactly those with finite decimals and sayable strings, and such a value is read from every text that writes it down |
| `JsonWriting.StandardText` | public/javascripts/jsonlint.js:57-406 | every text with the four white-space characters of RFC 8259 between its tokens is read |
| `JsonComposition.NameTexts` | public/javascripts/jsonlint.js:24-29 | the texts true, false and null denote their values |
| `JsonComposition.LeafTexts` | public/javascripts/jsonlint.js:12-22 | a number or a string alone denotes its value |
| `JsonComposition.SpacedText` | public/javascripts/jsonlint.js:404-406 | white space in front of a text and behind it changes nothing |
| `JsonComposition.ArrayText` | public/javascripts/jsonlint.js:42-49 | texts in brackets with commas between them denote the array of what they denote |
| `JsonComposition.ObjectText` | public/javascripts/jsonlint.js:32-41 | keys and texts in braces denote the object of what they denote, of equal keys the later counting |
| `SyncSpec.MergeKeepsNewest` | go/sql/sync_table.go:104-186 | after any list of changes each key has the greatest of the old and pushed times, with the content of the first change that attains it, or the old content on a tie |
| `SyncSpec.ResultsAreBeats` | go/sql/sync_table.go:104-186 | a change is reported as done exactly if it is newer than the stored entry and than every earlier change of its key |
| `SyncSpec.MergeFrame` | go/sql/sync_table.go:104-186 | other users, empty ids and keys not in the list are untouched |
| `SyncSpec.MergeAnyOrder` | go/sql/sync_table.go:104-186 | neither order nor repetition of the changes matters when equal times of a key mean equal changes |
| `SyncSpec.MergePermutation` | go/sql/sync_table.go:104-186 | with distinct times per key any permutation gives the same tables |
| `SyncSpec.Replay` | go/sql/sync_table.go:104-186 | replaying the list, or part of it in any order, reports false throughout and changes nothing |
| `SyncRounds.MergeListed` | go/sql/sync_table.go:69-186 | merging records fetched from one table into another settles each key by its time alone |
| `SyncRounds.DumpReplay` | go/sql/sync_table.go:49-62 | feeding a dump into an empty table rebuilds the user's rows, times and tombstones exactly if every entry has an id and no stored state is empty |
| `SyncRounds.DeltaWithinMarks` | go/sql/sync_table.go:189-229 | a delta holds only times above the mark asked with and up to the mark handed out |
| `SyncRounds.PushSeenLater` | go/sql/sync_table.go:104-214 | when a change anywhere in a pushed list is accepted, the next delta has its key exactly if the list has a change of that key dated after the mark asked with |
| `SyncRounds.RefillAt` | go/sql/sync_table.go:246-258 | the insertion loop leaves each key with the last record that can be stored |
| `SyncRounds.ReplaceKeepsLast` | go/sql/sync_table.go:232-266 | after a replacement by a non-empty list the user's two tables have the same keys, each with the last eligible record, and nobody else is touched |
| `SyncRounds.RunConsistent` | go/sql/sync_table.go:104-332 | in every reachable state each data row has a journal entry |
| `SyncRounds.ApplyFrame` | go/sql/sync_table.go:104-332 | an operation for one user changes nothing of any other user |
| `SyncRounds.UsersDoNotInterfere` | go/sql/sync_table.go:104-332 | after any run a user has what a run of that user's operations alone gives |
| `SyncRounds.JournalOnlyGrows` | go/sql/sync_table.go:104-214 | through the conditional operations no journal entry is lost or goes back in time, and a key whose time stays keeps its row |
| `SyncRounds.RoundConverges` | go/sql/sync_table.go:189-214 | for any two tables and any mark: one round makes them equal for the user, deletions included, exactly if every key is equal already or is won by one side with an entry newer than the mark and than the other side, with an id and no empty stored state |
| `SyncRounds.TiesStay` | go/sql/sync_table.go:130-176 | equal times with different contents stay as they are on both sides, whatever the mark |
| `SyncRounds.ReplacementUnsettles` | go/sql/sync_table.go:232-266 | a key that both sides hold since before the mark and that a replacement drops on one side is never settled |
| `SyncRounds.EveryRoundConverges` | go/sql/sync_table.go:189-214 | from empty tables, over any run of rounds and edits on both sides: the tables are equal for the user after every round. Edits are all operations of other users, and single or batch operations of the user, but no replacement, whose changes are dated after the latest mark and do not tie with other contents on the other side; single ones have an id and, if they store, a state |
| `SyncHistory.SingleRecord` | go/sql/sync_table.go:269-332 | the four single-record operations on both tables: after the unconditional ones the key has the given time with the state or without a row, after the conditional ones exactly if no time or an older one was stored, and no other key is touched |
| `SyncHistory.RunComesTo` | go/sql/sync_table.go:87-332 | after any run of all operations each key holds the entry of the latest unconditional operation on it, or nothing if that was a replacement without it, or the first of the newest entries offered since, if that is newer |
| `SyncHistory.OneEnd` | go/sql/sync_table.go:87-332 | that determines what is held |
| `SyncTables.UserDeviceSyncRecord.constructor` | go/sql/user_device.go:43-51 | a joined record from a row and a time |
| `SyncTables.UserDeviceSyncRecord.SetKey` | go/sql/user_device.go:90-92 | replaces the key of the record itself and nothing else |
| `SyncTables.SyncTable.StoreRecord` | go/sql/sync_table.go:149-157 | data row and journal entry are overwritten together |
| `SyncTables.SyncTable.RemoveRecord` | go/sql/sync_table.go:178-186 | the data row goes, the journal entry is overwritten |
| `SyncTables.SyncTable.StoreIfRecent` | go/sql/sync_table.go:130-147 | stores exactly if the journal has no entry at least as new |
| `SyncTables.SyncTable.RemoveIfRecent` | go/sql/sync_table.go:159-176 | deletes exactly if the journal has no entry at least as new |
| `SyncTables.SyncTable.InsertIfRecent` | go/sql/sync_table.go:269-282 | both tables get the row and the time exactly if the journal has none at least as new; one step of a run |
| `SyncTables.SyncTable.DeleteIfRecent` | go/sql/sync_table.go:302-315 | the row goes and the time is noted exactly if the journal has none at least as new; one step of a run |
| `SyncTables.SyncTable.InsertOne` | go/sql/sync_table.go:285-299 | both tables get the row and the current time, whatever is stored, and nothing else changes; one step of a run |
| `SyncTables.SyncTable.DeleteOne` | go/sql/sync_table.go:318-332 | the row goes and the current time is noted, whatever is stored, and nothing else changes; one step of a run |
| `SyncTables.SyncTable.HandleChange` | go/sql/sync_table.go:107-125 | one record: its user is set, an empty id is refused, otherwise stored or deleted if recent |
| `SyncTables.SyncTable.HandleChanges` | go/sql/sync_table.go:87-128 | the loop computes the merge of the list and the result of each change, and leaves the user's id in the records |
| `SyncTables.SyncTable.InsertAll` | go/sql/sync_table.go:246-258 | the loop of the replacement; records without a state keep their key |
| `SyncTables.SyncTable.ReplaceAll` | go/sql/sync_table.go:232-266 | an empty list changes nothing; otherwise the user's data is wiped and refilled |
| `SyncTables.SyncTable.Join` | go/sql/sync_table.go:53-61 | fresh records of exactly the entries asked for, each once, with an empty state for a tombstone |
| `SyncTables.SyncTable.GetRaw` | go/sql/sync_table.go:49-62 | all entries of the user |
| `SyncTables.SyncTable.GetChangesAfter` | go/sql/sync_table.go:65-84 | the entries of the user newer than the mark |
| `SyncTables.SyncTable.GetLastModified` | go/sql/sync_table.go:216-229 | the greatest time in the user's journal, zero if it is empty |
| `SyncTables.SyncTable.SyncAt` | go/sql/sync_table.go:189-214 | delta and mark are those from before the pushes; the pushes are then merged |
| `SyncTables.Exchange` | go/sql/sync_table.go:189-214 | two tables, one exchange: they end up equal for the user exactly if every key is settled |
| `Wav.QuantiseFits` | browser/deps/recorder.js:167-172 | every sample fits 16 bits, quantising is monotone, and the ends of the scale are reached exactly from 1 and -1 on |
| `Wav.QuantiseNear` | browser/deps/recorder.js:167-172 | the stored number is the only one within one step of 32767 or 32768 times the sample, on the side of zero, and the end of the scale beyond 1 and -1 |
| `Wav.LittleEndianReads` | browser/deps/recorder.js:179-208 | a number stored in n bytes reads back modulo 256^n |
| `Wav.FileSampleAt` | browser/deps/recorder.js:179-213 | a sample of the file, read as two bytes with the low one first, is within one step of the sample stored, on the side of zero |
| `Wav.FileLengths` | browser/deps/recorder.js:180-208 | the RIFF and data lengths match the buffer exactly while the file fits 32-bit lengths |
| `Wav.FileFields` | browser/deps/recorder.js:183-208 | what a reader finds in the header, byte by byte: the four identifiers, raw samples, channel count, rates, block size and 16 bits a sample |
| `Recorder.Worker.constructor` | browser/deps/recorder.js:97-101 | the worker after its init message |
| `Recorder.Worker.InitBuffers` | browser/deps/recorder.js:137-140 | an empty list of chunks for every channel |
| `Recorder.Worker.Record` | browser/deps/recorder.js:103-107 | one chunk more for every channel, the length grown by that of the first |
| `Recorder.Worker.Clear` | browser/deps/recorder.js:131-135 | back to the empty recording |
| `Recorder.Worker.OnMessage` | browser/deps/recorder.js:77-94 | a record or clear message is one step of a run |
| `Recorder.Worker.MergeBuffers` | browser/deps/recorder.js:142-150 | the chunks one after the other, zeros behind them; throws exactly if they do not fit the counted length |
| `Recorder.Worker.InterleaveChannels` | browser/deps/recorder.js:152-165 | the two channels alternate |
| `Recorder.Worker.GetBuffer` | browser/deps/recorder.js:124-129 | all channels merged; throws exactly if some channel has more samples than counted |
| `Recorder.Worker.SetLittleEndian` | browser/deps/recorder.js:186-208 | a field is written at its offset and the bytes before it stay |
| `Recorder.Worker.WriteString` | browser/deps/recorder.js:174-177 | the character codes are written and the bytes before them stay |
| `Recorder.Worker.FloatTo16BitPCM` | browser/deps/recorder.js:167-172 | the quantised samples, two bytes each, behind what is already there |
| `Recorder.Worker.WriteRiff` | browser/deps/recorder.js:183-188 | the first twelve bytes of the header |
| `Recorder.Worker.WriteFormat` | browser/deps/recorder.js:189-204 | the format chunk |
| `Recorder.Worker.EncodeWAV` | browser/deps/recorder.js:179-213 | the whole buffer is the header and the data of the samples |
| `Recorder.Worker.ExportWAV` | browser/deps/recorder.js:109-122 | the file of both channels alternating, or of the first channel; throws exactly without a channel or when one does not fit |
| `Recorder.RunKeepsEverything` | browser/deps/recorder.js:103-135 | after any run each channel holds exactly what it received since the latest clear |
| `Recorder.ExportedRun` | browser/deps/recorder.js:103-213 | after any run with any number of channels the export goes through, and taking the file apart as its header says gives every channel its samples since the latest clear, in order and each within one step, exactly if there are at most two channels or nothing was received |
| `Recorder.ThreeChannelsFail` | browser/deps/recorder.js:109-122 | a concrete run of three channels that does not read back |

## Left out

- QrPolynomials.Mod: a divisor that is empty or whose leading slot is unassigned is excluded; the recursion of the program does not end on it, and the generator is never one.
- MapData.PlaceData: sizes below 7 and even sizes are excluded; a symbol has 17 + 4 * version modules a side.
- Codewords.CreateData: a segment of 2^32 bytes or more is excluded; no JavaScript array has that many.
- SyncTables.SyncTable.Join: the order of the records is not specified, as the queries have no order clause.
- Recorder.Worker.Record: an input with fewer buffers than channels, or none, is excluded; the browser delivers one per channel.
- QrTexts.TextHeld: the comparison of a length with the text itself, which converts the text to a number, is a parameter; texts are sequences of UTF-16 code units.
- QR: choice of the mask, function patterns, drawing. The symbol starts from byte lists and a matrix with its reserved modules, and asks that as many modules are free as the standard says.
- JSON: a member named `__proto__`, the order of members, and UTF-16 code units are not modelled; characters are Unicode scalar values.
- JsonMeaning.UnescapeStandard: strings with `\u` escapes are not compared with RFC 8259, as JsonMeaning.UnescapeItem says that such an escape stays as it is.
- JsonValues.IntTextValue: numbers are exact decimals; the rounding of Number() to a double, which begins beyond 2^53, is not modelled.
- JsonNumbers.NumberForms: numbers are exact decimals; the rounding of Number() to a double is not modelled.
- SyncRounds.EveryRoundConverges: a replacement of the user's own data is not among the edits, as SyncRounds.ReplacementUnsettles shows it may not; edits with stale times or ties are excluded for the same reason, and for any state reached SyncRounds.RoundConverges says exactly what the next round does.
- JSON: the program keeps states and symbols in one interleaved array; the model keeps two sequences. Locations, line numbers, error messages and recovery are not modelled: no table row has an error entry, so the first error throws.
- Sync: SQL, the object mapper, transaction failures, requests and authentication. A transaction is one method call; the package-level table used inside SyncAt is the receiver.
- Sync: only the user-device rows, with their single state column; GetAll and GetOne, which only read.
- Sync: three or more replicas. The mark handed out is from before the pushes, so later deltas can miss a push (see SyncRounds.PushSeenLater); rounds are between a server and one client.
- Recorder: the byte-rate field is written as the program writes it, sampleRate * 4, which is right for two channels only. Web Audio wiring, NaN samples and 32-bit rounding of samples are not modelled; the init message is the constructor.
- The engine manager, routes, views, statistics, scheduling and the other browser code.
