# AES, CBC, cJSON and two small codecs, verified

This project models three parts of the JD smart-home firmware for the HF-LPB module in Dafny, and proves what they
are for. `dafny verify dfyconfig.toml` checks all of it, under the limits that the file sets.

**AES and CBC** (`src/aes`). The specification is FIPS 197 in its own terms: bytes of GF(2^8), columns, states,
rounds, the word recurrence of the key schedule. The code is modelled as it stands: the ten tables as literals, the
round loop that does two rounds per pass and breaks in the middle, the three unrolled key expansions, the decryption
schedule that is reversed and mixed in place, and the CBC loop with its padding and its two decryption branches. Four
kinds of results meet: the tables satisfy the equations that the source only states in a comment; the code computes
the cipher of section 5.1, the equivalent inverse cipher of section 5.3.5 and the expansion of section 5.2 of FIPS
197; the definitions give the example of section C.1 (`FipsVectors.KnownAnswer`); and cipher and inverse cipher undo
each other, so that CBC decryption returns every plaintext with its exact length, as long as that of the ciphertext
fits into 32 bits.

**cJSON** (`src/jdsmart/cJSON.c`) is modelled twice. As functions on texts and values there are the parser, the
printer with and without formatting, and the minifier. What they are for is said without them: a grammar, that is,
syntax trees with white space, escapes and exponents wherever they may stand, their texts and their meanings, of which
the parser accepts every text and nothing else (`JsonGrammar.DocumentAccepted`); a layout of those trees, which the
printers keep to (`JsonLayout.PrintedIsTidy`); and chunks of a text, of which the minifier keeps some
(`JsonChunks.MinifyKeeps`). Further theorems relate the three: what is printed is read back, minifying the formatted
text gives the unformatted one, and minifying keeps what a text with comments means, as long as the minifier finds the
comments. As methods on nodes, buffers and an allocator that may fail at any call there are the same operations and
the list operations, each proved against those functions. A caller who holds items and adds, detaches, deletes and
replaces, by position or by name, in any order, sees what the same calls do to a sequence of names and items
(`JsonRuns.RunOn`); an item here is a snapshot of all its nodes and strings. The layers fit together: what is parsed
can be printed and copied, and a text that is parsed, edited by such a run and printed gives the text of the run on
the parsed sequence (`JsonDocuments.EditDocument`). A ghost `Tree` names the nodes and strings of a structure;
`Linked` and `Segment` say that the `next`, `prev` and `child` fields agree with it, `Separate` that no block occurs
in it twice, `Proper` that it has no reference and only terminated strings, and `Value` what it shows. The allocator
keeps the set of live blocks: only a live block can be freed, and freeing one leaves anything in it, so a method that
ends with the right live set has freed each block once and has not looked at it since.

**Codecs.** `URLEncode` with `httpdecode`, which works in place, and `my_itoa` with `str2int`.

Characters stand for bytes, so that texts are characters below 256. Numbers that the C code keeps in `double` are reals.

## Results that are not what one would expect

- Reading back a printed number restores it exactly when its two fields agree; `print_number` also prints with `%d` when
  they differ by at most `DBL_EPSILON`, and then the difference is lost (`JsonRoundTrip.DocumentRoundTrip`,
  `JsonRoundTrip.RoundingLoses`).
- `cJSON_CreateIntArray` goes through a null pointer exactly when an allocation for a number fails and the array has more
  than one (`JsonLists.CreateIntArray`).
- `cJSON_ReplaceItemInObject` does not free a name that the new item had: when it finds the name, a block stays live that
  no tree has if and only if the new item had one (`JsonLists.ReplaceItemInObject`). No other list operation leaves a
  block behind (`JsonRuns.NothingLeaked`), and four calls on two items do (`JsonRuns.ARunThatLeaks`).
- `cJSON_Minify` looks for the end of a block comment from its opening slash on, so that it takes `/*/` for a whole
  comment. It ends a comment where it ends if and only if the comment does not start that way
  (`JsonComments.CommentEndAgrees`), and finds exactly the comments of a text if and only if none does
  (`JsonComments.CommentsFound`). Such a comment can lose a document (`JsonMinifyParse.EarlyCloseLosesDocument`), and can
  go unnoticed (`JsonComments.EarlyCloseUnnoticed`).
- What the parser accepts is wider than JSON, and the grammar says how: a minus sign alone is a number, and so are digits
  behind a leading zero and an `e` without digits; any character may stand behind a backslash, and control characters in
  a literal; a code of four characters that are no digits stands for nothing; any character below the space is white
  space; and a literal may end with the text (`JsonNumerals.IsNumeral`, `JsonLiterals.IsPiece`, `JsonGrammar.IsDoc`).
- Minifying can make a document of a text that is none: `1 2` becomes `12` (`JsonMinifyParse.MinifyJoins`).
- `URLEncode` escapes `Z`, `z` and `9`, because its comparisons are strict (`UrlCodec.EncodeIs`).
- For a plaintext in its last sixteen bytes before 2^32, encryption announces a length of 0, and decryption restores
  nothing (`CbcSpec.CipherLengthHolds`, `AesCbc.AesCbcRoundTrip`).
- The two loops of `print_object` leave exactly five characters of the buffer unused, `print_array` more
  (`JsonPrinter.BufferSize`).

## Model

| member | source | states |
|---|---|---|
| Gf256.MixColumnInverts | src/aes/aes_core.c:43-53 | the column of the Td tables' equations inverts the column of the Te tables' equations, for every column |
| Gf256.InvMixColumnAdds | src/aes/aes_core.c:865-886 | InvMixColumn is linear over exclusive or, which is what lets it be moved into the round keys |
| SBoxes.InvSBoxUndoesSBox | src/aes/aes_core.c:328-332 | the byte table behind Td4 inverts the one behind Te4, for all 256 bytes |
| SBoxes.SBoxIsAffineInverse | src/aes/aes_core.c:328-332 | the literal S-box is the affine map of the multiplicative inverse in GF(2^8), as section 5.1.1 of FIPS 197 defines it |
| AesTables.Te0Holds | src/aes/aes_core.c:43 | every literal entry of Te0 is S[x].[02, 01, 01, 03] |
| AesTables.Te1Holds | src/aes/aes_core.c:44 | every literal entry of Te1 is S[x].[03, 02, 01, 01] |
| AesTables.Te2Holds | src/aes/aes_core.c:45 | every literal entry of Te2 is S[x].[01, 03, 02, 01] |
| AesTables.Te3Holds | src/aes/aes_core.c:46 | every literal entry of Te3 is S[x].[01, 01, 03, 02] |
| AesTables.Te4Holds | src/aes/aes_core.c:47 | every literal entry of Te4 is S[x] four times |
| AesTables.Td0Holds | src/aes/aes_core.c:49 | every literal entry of Td0 is Si[x].[0e, 09, 0d, 0b] |
| AesTables.Td1Holds | src/aes/aes_core.c:50 | every literal entry of Td1 is Si[x].[0b, 0e, 09, 0d] |
| AesTables.Td2Holds | src/aes/aes_core.c:51 | every literal entry of Td2 is Si[x].[0d, 0b, 0e, 09] |
| AesTables.Td3Holds | src/aes/aes_core.c:52 | every literal entry of Td3 is Si[x].[09, 0d, 0b, 0e] |
| AesTables.Td4Holds | src/aes/aes_core.c:53 | every literal entry of Td4 is Si[x] four times |
| AesCore.EncWordMixes | src/aes/aes_core.c:993-998 | one table expression of an encryption round is SubBytes, ShiftRows, MixColumns and AddRoundKey for one column |
| AesCore.DecWordMixes | src/aes/aes_core.c:1184-1189 | the same for a decryption round and the inverse transformations |
| AesCore.SubTe4Substitutes | src/aes/aes_core.c:1054-1059 | the masked Te4 expression of the last round is the substitution and the key, without mixing |
| AesCore.SubTd4Substitutes | src/aes/aes_core.c:1245-1250 | the same for Td4 |
| AesCore.InvMixWordMixes | src/aes/aes_core.c:867-871 | going through Te4 and the Td tables applies InvMixColumn to a word of the schedule |
| AesCore.EncRoundHolds | src/aes/aes_core.c:993-1016 | four such expressions make one full round of the cipher on the whole state |
| AesCore.DecRoundHolds | src/aes/aes_core.c:1184-1207 | four such expressions make one full round of the equivalent inverse cipher |
| AesCore.LastEncRoundHolds | src/aes/aes_core.c:1054-1080 | the last four expressions make the round without MixColumns |
| AesCore.LastDecRoundHolds | src/aes/aes_core.c:1245-1271 | the last four expressions make the last round of the inverse cipher |
| AesCipher.LoadState | src/aes/aes_core.c:912-915 | each word is four bytes of the buffer, the first in the top bits, under exclusive or with a word of the first round key |
| AesCipher.StoreState | src/aes/aes_core.c:1060-1080 | the bytes of the buffer are the bits of the four words in the same order |
| AesCipher.FullEncRounds | src/aes/aes_core.c:991-1048 | the two-rounds-per-pass loop with its break does rounds - 1 full rounds and leaves rk at word 4 * rounds |
| AesCipher.AesEncrypt | src/aes/aes_core.c:896-1081 | the 16 bytes written are the cipher of section 5.1 of FIPS 197 of the 16 bytes read, also when the two overlap; no other byte changes |
| AesCipher.FullDecRounds | src/aes/aes_core.c:1182-1239 | the same loop for decryption |
| AesCipher.AesDecrypt | src/aes/aes_core.c:1087-1272 | the 16 bytes written are the equivalent inverse cipher of section 5.3.5 of FIPS 197 of the 16 bytes read |
| Fips197.RoundsMeet | src/aes/aes_core.c:1182-1239 | after r rounds of decryption the state is what encryption had before its last r rounds, up to the final key |
| Fips197.EqInvCipherUndoesCipher | src/aes/aes_core.c:1087-1272 | for every schedule and block, the equivalent inverse cipher with the inverse schedule undoes the cipher |
| FipsVectors.KnownAnswer | src/aes/aes_core.c:896-1081 | key expansion, cipher and byte order together give the example vector of section C.1 of FIPS 197 |
| FipsVectors.Expansion192 | src/aes/aes_core.c:787-806 | the first words behind a key of 24 bytes, as in section C.2 |
| FipsVectors.Expansion256 | src/aes/aes_core.c:809-836 | the first words behind a key of 32 bytes, as in section C.3, the substitution in the middle of a run among them |
| AesKeySchedule.RconHolds | src/aes/aes_core.c:733-737 | the literal rcon words are the powers of x in GF(2^8) |
| AesKeySchedule.Expand128 | src/aes/aes_core.c:767-784 | the unrolled loop fills exactly 44 words with the recurrence of section 5.2 of FIPS 197 |
| AesKeySchedule.Expand192 | src/aes/aes_core.c:787-806 | the same for 52 words, with the stop in the middle of the last pass |
| AesKeySchedule.Expand256 | src/aes/aes_core.c:809-836 | the same for 60 words, with the extra substitution without rotation |
| AesKeySchedule.FilledIsExpansion | src/aes/aes_core.c:742-838 | words that satisfy the recurrence from the key on are the key expansion |
| AesKeySchedule.KeyBytesKept | src/aes/aes_core.c:763-766 | the bits of the first words of the schedule are the key bytes in their order, the first byte in the top eight bits |
| AesKeySchedule.AesSetEncryptKey | src/aes/aes_core.c:742-838 | -1 for a null argument, -2 for an unsupported size, else 0 with 10, 12 or 14 rounds, the key expansion, and the key bytes in the bits of the first words |
| AesKeySchedule.ReverseRoundKeys | src/aes/aes_core.c:857-863 | the in-place loop reverses the round keys and keeps the words within each |
| AesKeySchedule.MixRoundKeys | src/aes/aes_core.c:864-887 | InvMixColumn is applied to all round keys but the first and the last |
| AesKeySchedule.AesSetDecryptKey | src/aes/aes_core.c:843-889 | the schedule is the inverse schedule of section 5.3.5 of FIPS 197 for the same key; the error returns are those of encryption |
| CbcSpec.DecryptBlocksUndoes | src/aes/aes_cbc.c:109-117 | chained decryption of whole blocks undoes chained encryption, for any block cipher and its inverse |
| CbcSpec.DecryptBlocksAppend | src/aes/aes_cbc.c:109-122 | one more block of ciphertext adds one block of plaintext, chained to the ciphertext block before it |
| CbcSpec.PadIs | src/aes/aes_cbc.c:88-105 | the padding fills the last block, with 1 to 16 bytes that each hold their number |
| CbcSpec.CbcBlock | src/aes/aes_cbc.c:79-98 | for any block cipher: each block of the ciphertext is the cipher of the exclusive or, byte by byte, of the padded plaintext's block and the block of ciphertext before it, or the IV |
| CbcSpec.BlockDecrypted | src/aes/aes_cbc.c:109-117 | each block of the plaintext is the exclusive or, byte by byte, of the deciphered block and the block of ciphertext before it, or the IV, for every ciphertext |
| CbcSpec.UnpaddedLengthIs | src/aes/aes_cbc.c:124-127 | the length that is announced and the last byte add up to the decrypted length, modulo 2^32 |
| CbcSpec.CipherLengthHolds | src/aes/aes_cbc.c:89-105 | the announced length on unsigned ints is that of the padded text, or 0 for a plaintext of 2^32 - 16 bytes or more |
| CbcSpec.CbcRoundTrip | src/aes/aes_cbc.c:78-128 | for any plaintext: the ciphertext length is the least multiple of 16 above it, and decrypting as many bytes as are announced gives the plaintext and its length back if and only if it is shorter than 2^32 - 16 bytes |
| AesCbc.XorInto | src/aes/aes_cbc.c:90-93 | the block becomes, byte by byte, the exclusive or of the padded input and the chaining block, also in place |
| AesCbc.EncryptWholeBlocks | src/aes/aes_cbc.c:79-87 | the loop over the moving pointers writes the chained blocks and stops with the last one as chaining block |
| AesCbc.CbcCoreEncrypt | src/aes/aes_cbc.c:78-106 | the output is the padded CBC encryption, in place or not, and the announced length is that of the padded text, modulo 2^32; nothing behind the ciphertext changes |
| AesCbc.DecryptWholeBlocks | src/aes/aes_cbc.c:109-117 | the loop over the moving pointers writes the decryption of the whole blocks and stops with the last ciphertext block as chaining block |
| AesCbc.DecryptRest | src/aes/aes_cbc.c:118-122 | of a last block that lies only partly within the length, the bytes within it are decrypted, and no other byte changes |
| AesCbc.CbcCoreDecrypt | src/aes/aes_cbc.c:108-128 | into another buffer: the CBC decryption of that many bytes, whole blocks or not, the length read from the last byte, ivec as before |
| AesCbc.PlainByte | src/aes/aes_cbc.c:109-122 | every byte of the plaintext, in a block that is whole or not, is the exclusive or of a byte of the deciphered block and one of the block before it |
| AesCbc.DecryptRestInPlace | src/aes/aes_cbc.c:142-149 | the same in place: the bytes behind the length are put back, and ivec takes the block |
| AesCbc.CbcCoreDecryptInPlace | src/aes/aes_cbc.c:130-155 | in place: the same bytes and the same length, and ivec ends as the last ciphertext block |
| AesCbc.AesCbcCore | src/aes/aes_cbc.c:63-156 | the three branches together: both decryptions give the same result, and only the one in place changes ivec |
| AesCbc.AesDecipherUndoesAesEncipher | src/aes/aes_core.c:843-889 | for every key of the three sizes, decryption under its decryption schedule undoes encryption under its encryption schedule |
| AesCbc.AesCbcEncrypt | src/aes/aes_cbc.c:157-174 | key expansion and CBC encryption together give the CBC encryption under AES with that key |
| AesCbc.AesCbcDecrypt | src/aes/aes_cbc.c:176-193 | key expansion and CBC decryption together give the CBC decryption under AES with that key |
| AesCbc.AesCbcRoundTrip | src/aes/aes_cbc.c:157-193 | for every plaintext that an unsigned int can measure, IV and key: decrypting as many bytes as encryption announces gives the plaintext and its exact length if and only if it is shorter than 2^32 - 16 bytes |
| CText.SkipOver | src/jdsmart/cJSON.c:263 | skip passes over any run of characters up to the space character |
| JsonNumbers.ParseDecimal | src/jdsmart/cJSON.c:102-110 | the digits that %d prints are read as the number they stand for, and reading stops right behind them |
| JsonNumbers.ParseIntText | src/jdsmart/cJSON.c:97-116 | the same with a sign, whatever follows that cannot continue the number |
| JsonNumbers.TruncateIs | src/jdsmart/cJSON.c:113 | the integer field is the nearest integer on the side of zero |
| JsonNumerals.NumeralRead | src/jdsmart/cJSON.c:97-116 | a numeral, with a sign, a leading zero, a fraction and an exponent or without any of them, is read as its digits by position with the point moved, and reading stops right behind it |
| JsonNumerals.NumeralFound | src/jdsmart/cJSON.c:97-116 | every text starts with such a numeral, if only an empty one, that nothing behind it continues |
| JsonStrings.Utf8Decodes | src/jdsmart/cJSON.c:194-202 | the bytes written for a code point are accepted by a decoder after the table of section 3 of RFC 3629, as that code point and that many bytes |
| JsonStrings.EscapeShrinks | src/jdsmart/cJSON.c:162-206 | an escape stands for no more bytes than the first pass counted for the characters that it takes |
| JsonStrings.UnescapeFits | src/jdsmart/cJSON.c:162-208 | on every literal, the second pass writes no more than the first pass counted |
| JsonStrings.UnescapeUnicodes | src/jdsmart/cJSON.c:181-203 | a literal of escaped scalar values other than zero, surrogate pairs among them, is read as the UTF-8 text of those values |
| JsonStrings.EscapeFits | src/jdsmart/cJSON.c:222-248 | the writing pass of print_string_ptr writes what its counting pass counted |
| JsonStrings.UnescapeEscape | src/jdsmart/cJSON.c:168-208 | the body of a printed literal is read back as the string it was printed from |
| JsonStrings.ParsePrintString | src/jdsmart/cJSON.c:157-250 | parse_string undoes print_string_ptr on every string of bytes without NUL, and stops right behind the closing quote |
| JsonLiterals.PiecesRead | src/jdsmart/cJSON.c:166-210 | a literal of characters, short escapes, codes and surrogate pairs, closed or ended by the text, is read as the bytes of its pieces |
| JsonLiterals.PiecesFound | src/jdsmart/cJSON.c:166-210 | every literal that is read is made of such pieces |
| JsonLiterals.LiteralCut | src/jdsmart/cJSON.c:162-187 | a literal is given up as cut if and only if behind some pieces a backslash ends the text, or the four characters of a code do not lie within it |
| JsonRoundTrip.ParsePrintValue | src/jdsmart/cJSON.c:289-319 | for every value, depth and formatting, whatever follows: parsing consumes exactly the printed text and rebuilds the value |
| JsonRoundTrip.ParsePrintItems | src/jdsmart/cJSON.c:322-405 | the same for the items of an array |
| JsonRoundTrip.ParsePrintMembers | src/jdsmart/cJSON.c:408-509 | the same for the members of an object, names and order included |
| JsonRoundTrip.DocumentRoundTrip | src/jdsmart/cJSON.c:266-286 | a printed document is read back as the value if and only if the two fields of each number agree; otherwise the numbers come back rounded |
| JsonRoundTrip.RoundingLoses | src/jdsmart/cJSON.c:123-128 | a number for which that fails |
| JsonGrammar.DocRead | src/jdsmart/cJSON.c:289-441 | for every syntax tree, with any white space around items, names, colons, commas and brackets: the parser reads its meaning off its text, and stops right behind it |
| JsonGrammar.DocFound | src/jdsmart/cJSON.c:289-441 | every text that the parser accepts starts with the text of a syntax tree |
| JsonGrammar.ValueAccepted | src/jdsmart/cJSON.c:289-301 | for every text, value and rest: the parser accepts the text with that value and rest if and only if the grammar has it |
| JsonGrammar.DocumentAccepted | src/jdsmart/cJSON.c:266-280 | the same for whole texts, with white space in front, and with only white space behind when nothing else may follow |
| JsonGrammar.ValueCut | src/jdsmart/cJSON.c:289-441 | a text that is given up as cut has a literal that is |
| JsonLayout.PrintedIsTidy | src/jdsmart/cJSON.c:304-509 | what is printed at any depth, formatted or not, is the text of a tree with exactly the white space, escapes and digits that the layout describes, and means the value |
| Json.PrintsAsIntIs | src/jdsmart/cJSON.c:123 | the numbers of the integer branch, with DBL_EPSILON and the bounds of int written out |
| JsonMinify.MinifyPrintValue | src/jdsmart/cJSON.c:583-598 | minifying the formatted print of any value at any depth, whatever follows, gives its unformatted print |
| JsonMinify.MinifyPrint | src/jdsmart/cJSON.c:583-598 | for every document: the minified formatted text is the unformatted text |
| JsonChunks.MinifyKeeps | src/jdsmart/cJSON.c:583-598 | for every text: the minifier leaves t if and only if the text falls into white space, comments, literals and other characters of which the last two make up t |
| JsonChunks.MinifiedIsTight | src/jdsmart/cJSON.c:588-591 | no character of a minified text outside its literals is a space, a tab, a carriage return or a line feed |
| JsonComments.CommentEndIs | src/jdsmart/cJSON.c:593 | the end of a block comment by its meaning: what is in front is slash, star, no star and slash, star, slash |
| JsonComments.CommentEndAgrees | src/jdsmart/cJSON.c:593 | for every text that opens a block comment: the loop ends it there if and only if no slash follows the opening star |
| JsonComments.CommentsFound | src/jdsmart/cJSON.c:592-594 | for every text: the minifier finds exactly its comments if and only if none of them starts with slash, star, slash |
| JsonComments.MinifyDecomment | src/jdsmart/cJSON.c:592-593 | under that condition comments are nothing to the minifier but what a space is, and it ends inside a comment or literal exactly when the text does |
| JsonComments.EarlyCloseMinified | src/jdsmart/cJSON.c:593 | a text where it fails: the minifier leaves the rest of the comment |
| JsonComments.EarlyCloseUnnoticed | src/jdsmart/cJSON.c:593 | a text with such a comment that is minified as it should be all the same |
| JsonMinifyParse.EarlyCloseLosesDocument | src/jdsmart/cJSON.c:593 | a document that is read once its comment is out, and rejected once it is minified |
| JsonMinifyParse.MinifyKeepsValue | src/jdsmart/cJSON.c:289-301 | a value that is read at the front of a text is read from the minified text as the same value |
| JsonMinifyParse.MinifyKeepsDocument | src/jdsmart/cJSON.c:583-598 | a text that is read once its comments are out is read as the same value when it is minified, if none of them starts with slash, star, slash |
| JsonMinifyParse.MinifyKeepsMeaning | src/jdsmart/cJSON.c:583-598 | in the terms of the grammar: a text that means v once its comments are out, wherever it has white space, means v once it is minified |
| JsonMinifyParse.MinifyJoins | src/jdsmart/cJSON.c:588-591 | the other way round it fails: a text that is no document and becomes one when its white space goes |
| JsonMinifier.CopyLiteral | src/jdsmart/cJSON.c:594 | a literal is copied unchanged, escapes and quotes included |
| JsonMinifier.MinifyPass | src/jdsmart/cJSON.c:586-596 | each pass keeps the writing cursor at or behind the reading one, and what is written and still to come make up the minified text |
| JsonMinifier.MinifyInPlace | src/jdsmart/cJSON.c:583-598 | the buffer ends with the minified text, terminated: what the chunks of the text leave, without white space outside literals |
| JsonReader.SkipBlanks | src/jdsmart/cJSON.c:263 | the cursor stops where skip does |
| JsonReader.ParseNumber | src/jdsmart/cJSON.c:97-116 | the loops over the cursor compute the number and stop behind it, and fill the three fields |
| JsonReader.ParseHex4 | src/jdsmart/cJSON.c:142-153 | the value of four hexadecimal digits, 0 when one is not, without a look behind the first that is not |
| JsonReader.WriteUtf8 | src/jdsmart/cJSON.c:194-202 | the bytes written backwards are the UTF-8 form, and nothing before them changes |
| JsonReader.CountLiteral | src/jdsmart/cJSON.c:162 | the first pass counts characters, an escape as one, and stays in the text |
| JsonReader.FillLiteral | src/jdsmart/cJSON.c:167-210 | the second pass fills a buffer of the counted size without leaving it, and stops behind the closing quote |
| JsonReader.ParseString | src/jdsmart/cJSON.c:157-214 | it fails exactly on a text without an opening quote or without memory; else one new buffer holds the string, terminated |
| JsonParser.ParseItemsStep | src/jdsmart/cJSON.c:333-347 | the function that specifies the loop of parse_array goes item by item, as the loop does |
| JsonParser.ParseMembersStep | src/jdsmart/cJSON.c:418-440 | the same for parse_object |
| JsonParser.ParseItemsInto | src/jdsmart/cJSON.c:331-347 | the children made so far are always a well-linked list of separate trees without references, on failure too |
| JsonParser.ParseMembersInto | src/jdsmart/cJSON.c:416-440 | the same for named children; a name is moved out of the value string |
| JsonParser.ParseArrayInto | src/jdsmart/cJSON.c:322-347 | the node becomes the array that the text is parsed as, or the call fails and all that it made hangs on the node; no node below is a reference, and every string is terminated, either way |
| JsonParser.ParseObjectInto | src/jdsmart/cJSON.c:408-441 | the same for objects |
| JsonParser.ParseValueInto | src/jdsmart/cJSON.c:289-301 | it fails exactly when the text is no value or an allocation failed; what is live besides what was is exactly what hangs on the node, without references and with terminated strings |
| JsonParser.ParseDocument | src/jdsmart/cJSON.c:266-280 | it returns null exactly without a text, on a text that is no JSON, or without memory, and then nothing that it allocated is live; else the tree shows the parsed value under its type number, is complete and well linked, has no reference and no unterminated string, and so can be printed and copied |
| Nodes.DeleteOne | src/jdsmart/cJSON.c:87-91 | a node and what it owns is freed, not the children and the value string of a reference |
| Nodes.Delete | src/jdsmart/cJSON.c:82-94 | exactly the blocks owned through next links and through child links of nodes that are no references are freed, each once; no other block is written |
| Nodes.StrDup | src/jdsmart/cJSON.c:49-59 | a new terminated copy, or null with nothing live that was not |
| Nodes.KindShown | src/jdsmart/cJSON.h:32-38 | the type field that goes with a value, by the numbers of the header |
| Nodes.SuffixObject | src/jdsmart/cJSON.c:517 | a list gets its next node; what its trees show stays the same |
| Nodes.SegmentAppend | src/jdsmart/cJSON.c:43-54 | a run of siblings is well linked if and only if each of two parts is, with the links across |
| Nodes.ProperFollows | src/jdsmart/cJSON.c:87-90 | without references, what is well linked for one who stops at references is well linked for one who follows every child link, and the other way round |
| JsonPrinter.CountString | src/jdsmart/cJSON.c:222 | the counting pass counts the length of the escaped text |
| JsonPrinter.WriteString | src/jdsmart/cJSON.c:227-248 | the writing pass fills a buffer of that size plus three exactly |
| JsonPrinter.PrintStringPtr | src/jdsmart/cJSON.c:217-250 | one new buffer of exactly the needed size with the literal, or null; an empty text for a null string |
| JsonPrinter.PrintNumber | src/jdsmart/cJSON.c:119-128 | a number of the integer branch fits its 21 characters |
| JsonPrinter.JoinLength | src/jdsmart/cJSON.c:375 | what print_array counts is what it writes and more: by one for each entry and one or two besides |
| JsonPrinter.LinesLength | src/jdsmart/cJSON.c:471-476 | what print_object counts for its members is one more than what it writes for them |
| JsonPrinter.ItemEntries | src/jdsmart/cJSON.c:371-378 | the loop stops at the first entry that fails; the buffers made so far are distinct and all that is live besides what was |
| JsonPrinter.MemberEntries | src/jdsmart/cJSON.c:470-478 | the loop goes on when a name or an entry fails, and counts for the others; the same holds for both arrays of buffers |
| JsonPrinter.ComposeArray | src/jdsmart/cJSON.c:394-402 | the entries with their separators are written within the buffer, and each entry is freed once |
| JsonPrinter.ComposeObject | src/jdsmart/cJSON.c:492-507 | the lines of an object are written within the buffer, and each name and entry is freed once |
| JsonPrinter.PrintArray | src/jdsmart/cJSON.c:350-405 | one live buffer more with the printed array, of the stated size, or none on failure |
| JsonPrinter.PrintObject | src/jdsmart/cJSON.c:444-509 | the same for objects, empty ones too |
| JsonPrinter.Print | src/jdsmart/cJSON.c:285-286 | the printed document, or null with nothing live that was not; null without an item |
| JsonPrinter.PrintNode | src/jdsmart/cJSON.c:304-319 | for every tree, depth and formatting: it fails only without memory, and then leaves nothing; else exactly one live buffer more, with the printed text and exactly the spare characters of BufferSize |
| JsonLists.GetArraySize | src/jdsmart/cJSON.c:512 | the number of children |
| JsonLists.GetArrayItem | src/jdsmart/cJSON.c:513 | the child at that position, the first for a negative one, null behind the last; by the children's own numbers |
| JsonLists.StrCaseCmp | src/jdsmart/cJSON.c:39-44 | zero if and only if the names are equal but for the case of ASCII letters, or both missing |
| JsonLists.LowerIs | src/jdsmart/cJSON.c:42 | names are equal to the code if and only if they have the same length and their characters are equal or the two cases of one ASCII letter |
| JsonLists.PositionOfIs | src/jdsmart/cJSON.c:514 | the position that a name finds is that of the first child of that name |
| JsonLists.GetObjectItem | src/jdsmart/cJSON.c:514 | the first child of that name: none before it has the name; null if and only if no child has it |
| JsonLists.AddItemToArray | src/jdsmart/cJSON.c:522 | the list of children gets the item at its end, stays well linked, and shows the item's name and value behind what it showed; only one next link, the item's prev link and, in an empty list, the child link are written |
| JsonLists.AddItemToObject | src/jdsmart/cJSON.c:523 | the same with a copy of the name, which is what the list then shows behind what it showed; the old name is freed; without memory the name is null |
| JsonLists.CreateReference | src/jdsmart/cJSON.c:519 | a new node with the item's fields, no name and no links |
| JsonLists.ReferenceTrees | src/jdsmart/cJSON.c:519-525 | a reference shows the value of the item and owns nothing but itself |
| JsonLists.AddItemReferenceToArray | src/jdsmart/cJSON.c:524 | a new node with all fields of the item but the flag is the last child, and shows the item's value: the list shows that behind what it showed, through the child links that a printer follows; without memory nothing changes |
| JsonLists.DetachItemFromArray | src/jdsmart/cJSON.c:527-528 | the list loses the child at that position and stays well linked; the child stands alone with its own tree |
| JsonLists.DetachItemFromObject | src/jdsmart/cJSON.c:530 | it detaches the very node that cJSON_GetObjectItem finds |
| JsonLists.DeleteItemFromArray | src/jdsmart/cJSON.c:529 | exactly the child's blocks are freed; the list shows the names and values that it showed without those of the child, and of the other children nothing but links changes |
| JsonLists.DeleteItemFromObject | src/jdsmart/cJSON.c:531 | the same for the first child of that name |
| JsonLists.ReplaceItemInArray | src/jdsmart/cJSON.c:534-536 | exactly the child's blocks are freed; the list shows what it showed with the new item in the child's place, whatever sibling links that had; out of range nothing happens |
| JsonLists.ReplaceItemInObject | src/jdsmart/cJSON.c:537 | the same by name, under a copy of the name; what is live is what the trees have if and only if the new item had no name |
| JsonLists.LostName | src/jdsmart/cJSON.c:537 | the live blocks beyond those of the trees are the old name of the new item |
| JsonLists.ParentOf | src/jdsmart/cJSON.c:43-54 | a node whose list has changed is again a well-linked tree, and shows the items of the new list |
| JsonLists.ChildrenOf | src/jdsmart/cJSON.c:43-54 | the children of a well-linked tree are a list of separate trees that the node itself is not in |
| JsonLists.EntriesShow | src/jdsmart/cJSON.c:43-54 | the names and items of the children determine the value of an array and of an object |
| JsonLists.EntriesAdded | src/jdsmart/cJSON.c:522 | appending a tree appends its name and item |
| JsonLists.EntriesWithout | src/jdsmart/cJSON.c:527-528 | removing a tree removes the name and item at its position |
| JsonLists.EntriesReplaced | src/jdsmart/cJSON.c:534-536 | replacing a tree replaces the name and item at its position |
| JsonRuns.PositionShown | src/jdsmart/cJSON.c:514 | the child that a name finds among the nodes is the one that it finds among the names shown |
| JsonRuns.Perform | src/jdsmart/cJSON.c:522-537 | each of the eight calls, its allocations succeeding or not, does to the children and the items in hand what the function on sequences does, keeps both well linked and apart, and changes the live blocks as the trees change, but for one lost name; every node that is still held was held before with the same fields, so that references survive too |
| JsonRuns.PerformAll | src/jdsmart/cJSON.c:522-537 | the same for any sequence of calls |
| JsonRuns.RunOn | src/jdsmart/cJSON.c:522-537 | after any sequence of calls on an array or object, the node is again the root of a well-linked separate tree; children and items in hand are those of the run on sequences, with nodes and fields as they were; the live blocks are accounted for exactly, the lost ones outside of all trees. Without references before there is none after, every child link can be followed, and the node shows the value which the run gives; it is complete if and only if the entries of the run are |
| JsonRuns.RunAppend | src/jdsmart/cJSON.c:522-537 | a run of two sequences of calls is the second from where the first ends, and their losses add up |
| JsonRuns.RunWithin | src/jdsmart/cJSON.c:522-537 | a run makes no items: those at its end are among those at its start |
| JsonRuns.ViewAgrees | src/jdsmart/cJSON.c:43-54 | the snapshots of the children and of what is in hand hold the fields of exactly their nodes |
| JsonRuns.ProperShown | src/jdsmart/cJSON.c:43-54 | whether a list has no references and only terminated strings can be seen from its names and items |
| JsonRuns.CompleteShown | src/jdsmart/cJSON.c:43-54 | the same for whether a list is complete, that is, can be printed |
| JsonRuns.NothingDropped | src/jdsmart/cJSON.c:522-530 | in a run of adding and detaching the children and the items in hand keep their names and values, none lost and none doubled |
| JsonRuns.NothingLeaked | src/jdsmart/cJSON.c:522-537 | a run without replacement by name leaves no block behind |
| JsonRuns.ARunThatLeaks | src/jdsmart/cJSON.c:537 | a run of four calls that does |
| JsonLists.CreateNumber | src/jdsmart/cJSON.c:544 | a node of that number, its integer field truncated towards zero |
| JsonLists.CreateIntArray | src/jdsmart/cJSON.c:550 | with memory enough the children are the numbers in order; it goes through a null pointer if and only if a later allocation failed and there is more than one number |
| JsonDuplicate.Duplicate | src/jdsmart/cJSON.c:556-581 | a new tree, well linked for one who follows every child link, that shares no block with the original and has no reference; or null with nothing live that was not |
| JsonDuplicate.DuplicateKids | src/jdsmart/cJSON.c:571-579 | the copies of the children made so far are always a well-linked list, so that deleting the new node frees them |
| JsonDuplicate.CopyShowsValue | src/jdsmart/cJSON.c:556-581 | a copy shows the same value, and is complete when the original is, so that it prints the same text |
| JsonDuplicate.CopyKeepsFields | src/jdsmart/cJSON.c:565-567 | node by node a copy has the type, both numbers, the strings and the children of the original |
| JsonDuplicate.CopyIsProper | src/jdsmart/cJSON.c:556-581 | a copy has no reference and only terminated strings, whatever the original has |
| JsonDocuments.Reprint | src/jdsmart/cJSON.c:266-286 | a text that is parsed and printed gives the print of its value; but for the new text nothing is left live |
| JsonDocuments.PrintCopy | src/jdsmart/cJSON.c:285-286 | printing a copy gives the text of the original, one with references included |
| JsonDocuments.FitRun | src/jdsmart/cJSON.c:522-537 | a run on items that can be printed leaves a list that can be printed |
| JsonDocuments.EditArray | src/jdsmart/cJSON.c:522-537 | a run of list operations on an array, its print and its deletion: the text is that of the run on sequences, the items in hand stay, and the live blocks are accounted for exactly |
| JsonDocuments.EditDocument | src/jdsmart/cJSON.c:266-286 | from text to text: parsing an array, any run of list operations on it and printing give the text of the run on the parsed sequence |
| UrlCodec.UrlEncode | src/jdsmart/ota.c:18-50 | in a buffer longer than the encoded text: that text, terminated, and its length; 0 for arguments that it does not accept; in a shorter one the encoding of a prefix that fills it, or 0, exactly when an escape is next that does not fit; every text is the one encoding, character by character |
| UrlCodec.EncodeIs | src/jdsmart/ota.c:28-46 | for every text: the encoding is made of A to Y, a to y, 0 to 8 and four marks for themselves, a plus for a space, and a percent sign with two capital digits of the code for anything else, and nothing else is an encoding |
| UrlCodec.EncodedIsUrlText | src/jdsmart/ota.c:28-46 | an encoded text has only letters, digits and six marks |
| UrlCodec.HttpDecode | src/jdsmart/common.c:14-48 | the buffer ends with the decoded bytes and the terminator; the writing position never passes the reading one |
| UrlCodec.DecodeIs | src/jdsmart/common.c:34-45 | the texts that are decoded, and to what: escapes with digits in capitals or not, a plus for a space, any other character for itself |
| UrlCodec.UrlRoundTrip | src/jdsmart/ota.c:28-46 | decoding the encoded text restores every string of bytes; that text has no NUL and at most three times the length |
| Itoa.WriteDigits | src/jdsmart/common.c:73-77 | the first loop writes the digits from the last to the first |
| Itoa.ReverseInPlace | src/jdsmart/common.c:81-88 | the second loop reverses them and changes nothing else |
| Itoa.MyItoa | src/jdsmart/common.c:56-90 | for every int but the least and every radix from 2 to 36: the sign, the digits and the terminator |
| Itoa.DigitsMean | src/jdsmart/common.c:73-77 | the digits stand for the number by position, each is below the radix, and none leads with zero but that of zero |
| Itoa.TextMeans | src/jdsmart/common.c:56-90 | a minus sign in front of the digits of the absolute value for a negative number, and nothing else |
| Itoa.Str2Int | src/jdsmart/common.c:49-54 | the truncated value of the numeral that the text starts with |
| Itoa.ItoaRoundTrip | src/jdsmart/common.c:49-90 | at radix 10, str2int of the text of my_itoa is the number |

## Left out

- Floating point: `parse_number` and `print_number` are on reals, `pow` is exact, and the conversion to `int` does not overflow. The branches of `print_number` that print with `%.0f`, `%e` and `%f` are left out; a value with such a number is not `Printable`.
- JsonParser.ParseDocument: requires that the part of the text that is read does not end inside an escape, and that the four characters behind each `\u` in it lie within the literal, because `parse_string` steps over them whatever they are; the functions answer `Truncated` for such texts, and `JsonLiterals.LiteralCut` says which they are. The same holds for `JsonParser.ParseValueInto`, `JsonParser.ParseItemsInto`, `JsonParser.ParseMembersInto`, `JsonParser.ParseArrayInto`, `JsonParser.ParseObjectInto` and `JsonReader.ParseString`.
- JsonMinifier.MinifyInPlace: requires that the text does not end inside a comment or literal, because `cJSON_Minify` steps past the terminator there; the function answers `None`, which by `JsonChunks.MinifyKeeps` are the texts that do not fall into whole chunks.
- JsonReader.CountLiteral: requires that no backslash ends the text, because the loop steps past the terminator there; `JsonReader.FillLiteral` requires whole escapes as above.
- JsonReader.ParseNumber: does not model the rounding of `double` nor a conversion to `int` that overflows; nor do `JsonLists.CreateNumber`, `JsonNumbers.TruncateIs`, `JsonNumerals.NumeralRead`, the theorems of `JsonGrammar` with numbers, `JsonNumbers.ParseDecimal`, `JsonNumbers.ParseIntText` and `Itoa.Str2Int`.
- JsonPrinter.PrintNode: requires numbers of the integer branch, and strings and names where the types need them. The same holds for `JsonPrinter.PrintNumber`, `JsonPrinter.ItemEntries`, `JsonPrinter.MemberEntries`, `JsonPrinter.PrintArray`, `JsonPrinter.PrintObject` and `JsonPrinter.Print`.
- Integer widths outside of AES and CBC: lengths and counters are unbounded, so that a text or a tree must be smaller than an `int` can count.
- The depth of recursion of the parser, the printers, `cJSON_Delete` and `cJSON_Duplicate`.
- `cJSON_IsReference` is a field of its own instead of a bit of `type`.
- `cJSON_InitHooks` and the global error pointer `ep`. The hooks are the allocator of the model, whose every call may fail.
- `cJSON_Delete`, `cJSON_Duplicate`, the printers and the list operations on structures that are no forest.
- JsonLists.AddItemToArray: requires an item that is in no list, because the code keeps the item's own `next` link. The same holds for `JsonLists.AddItemToObject` and for the items in hand of a run.
- JsonLists.AddItemToObject: requires a name that is none of the item's own strings; given the item's own name, the code frees it and then copies it.
- JsonRuns.Perform: passes names in buffers of their own, no null item to a replacement, whose links the code would follow, and no null name to a replacement or an addition, which the code would copy.
- JsonRuns.Run: makes no references and does no searches.
- JsonRuns.RunOn: with references among the items it states that they and their fields stay, not the value that the list shows, which depends on trees elsewhere.
- `cJSON_AddItemReferenceToObject`, the other functions that create single nodes, and the arrays of `float`, `double` and strings: they are the modelled ones with another value or a name.
- tolower beyond ASCII.
- Data buffers that overlap without being equal.
- AesCbc.CbcCoreDecrypt: requires a last ciphertext block that lies in the buffer whole, as the code reads it whole, and a length other than 0, for which the code reads in front of the buffer. The same holds for `AesCbc.CbcCoreDecryptInPlace`, `AesCbc.AesCbcCore` and `AesCbc.AesCbcDecrypt`.
- AesCbc.CbcCoreDecryptInPlace: does not model an IV that lies within the data buffer; nor does `AesCbc.AesCbcCore`.
- AesCbc.AesCbcEncrypt: does not model a key of another length than 16, 24 or 32, for which the code goes on with a schedule that it has not filled.
- AesCbc.AesCbcDecrypt: does not model such keys either.
- The code under `FULL_UNROLL` and `AES_ASM`, which is not compiled, and timing.
- UrlCodec.HttpDecode: does not model `isFind` other than 0, which skips a header first, nor texts in which two hexadecimal digits do not follow a percent sign.
- UrlCodec.UrlEncode: requires a place behind `resultSize` when the encoded text may be cut off, because the code writes the terminator there.
- Itoa.MyItoa: does not model the least `int`, whose negation overflows.
- Null arguments where the code does not look for them, the rest of `common.c` and `ota.c`, and everything that talks to hardware, flash or the network.
- Shifts and masks outside of AES are written as division and remainder.
