# Verified models of byte codecs in v4l-utils

Machine-checked models, in Dafny, of the parts of v4l-utils that turn bytes into
structures and back, and of the properties that their users rely on. Every
module can be read beside the C file it models; loops and in-place updates are
methods on arrays and objects, each proved against a specification function,
and the theorems are lemmas about those functions.

Run `dafny verify dfyconfig.toml` in this directory.

| files | what they model |
|---|---|
| `AribTables`, `AribDecoder`, `AribCharConv`, `AribDecoderLoop` | the ARIB STD-B24 decoder: nine modes, four designated sets, locking and single shifts |
| `AribEncoder`, `AribEncoderLoop` | the ARIB STD-B24 encoder: its shadow of the decoder's state, its one-character lookahead, the emitting primitives writing into an output buffer |
| `AribSimulation`, `AribRoundTrip`, `AribText`, `AribTextRoundTrip` | why decoding undoes encoding, and exactly when |
| `AribWireIn`, `AribWireControl`, `AribCells`, `AribWireOut`, `AribWireText` | both directions byte for byte: what every sequence of bytes does to the decoder and every cell stands for, and what every character is encoded as |
| `AribIconv`, `AribExamples` | calls of the two converters as the iconv loop runs them, and texts that do not come back |
| `Strchrnul`, `Getsubopt` | the word-at-a-time string search and the destructive tokenizer that uses it |
| `Crc32Table`, `Crc32Words`, `Crc32` | the table-driven CRC-32 of ISO/IEC 13818-1, Annex A |
| `Bytes`, `Firmware`, `FirmwareFormat`, `ChunkStream`, `StandardData`, `ChunkBytes` | the XC2028/3028 firmware container, its chunk streams in two byte orders, and the small compiler into them |
| `SRecord`, `SRecordText`, `SRecordOther` | Motorola S-records read into a flash image |
| `Descriptors` | MPEG descriptors (section 2.6 of ITU-T H.222.0) parsed into a linked list, and BCD numbers |
| `Table00Tables`, `Table00`, `Table00Loops`, `Table00Stops` | character code table 00 of Annex A of ETSI EN 300 468 |

## Main results

*ARIB STD-B24.* After the bytes of any run of characters without NUL, the
decoder is in the state that the encoder's shadow describes
(`AribRoundTrip.SimulateAll`), whatever the JIS tables contain. Decoding gives
back the chosen (set, code) pairs if and only if there was no NUL, no character
without a code, and no character of JIS X 0213 plane 1 sent while G2 still held
plane 2 (`AribRoundTrip.RoundTripIff`): `out_jisx0213` records plane 1 whichever
plane it designates, so that two such characters come back wrong
(`AribRoundTrip.PlaneClashExample`, `AribExamples.PlaneClashText`).

With tables that are inverse to one another at the characters of the text, one
call each way gives the text back under the same condition, and if and only if
besides that (`AribTextRoundTrip.TextRoundTripIff`)

- the text does not end in a base that waits for a combining character. The loop
  of the encoder works on a copy of its state and, `UPDATE_PARAMS` being undefined
  again after the decoder (contrib/gconv/iconv/loop.c:562), never stores it: the
  flush finds nothing to emit. The one-pass encoder chooses what a two-pass
  specification chooses exactly when no base waits at the end
  (`AribEncoder.OneCallIsTwoPassIff`, `AribExamples.KanaIsLost`);
- no character outside a pair is one of those whose two conversions disagree: `\`
  and `~`, which are read as yen and overline; the five code points of
  `ucs4_to_extsym` that are listed with the code of another character
  (`AribText.ExtsymIff` covers all 495 entries); a character that JIS X 0208 has
  and JIS X 0213 has not, which goes out as two NULs (`AribExamples.BlankIsLost`);
  and the tags, which are passed over.

What each sequence of bytes does to the decoder, from every state in NORMAL mode,
is stated in bytes: shifts (`AribWireIn`), designations, control characters and
control sequences (`AribWireControl`), and the cells of the sets (`AribCells`). So
is what the encoder emits under every shadow (`AribWireOut`) and for texts of one
or two characters (`AribWireText`).

What is asked of the tables is asked of the characters of the text and of its
neighbours only (`AribTextRoundTrip.Consistent`). `AribIconv.ThereAndBack` runs
both loops one after the other. As the stored state is always clear, every call of
the encoder starts anew; two calls emit what one would if the first part ends in a
line feed (`AribIconv.TwoCalls`, `AribIconv.EndsInLineFeed`).

*String search.* For memory of any content, a word size of 4 or 8 and either byte
order, `Strchrnul.Strchrnul` finds the first position of the character or NUL.
The carry trick is characterised exactly: it fires on a word if and only if a
byte matches or the highest byte is 0x80 or matches but for its highest bit.

With brackets heeded, a comma separates suboptions if and only if there are as many
opening as closing brackets before it in the string (`Getsubopt.CutIsSeparators`).

*CRC.* The table-driven loop is the bit-serial shift register, for every message
and seed; four trailing bytes give checksum 0 if and only if they are the
checksum; two messages that differ only within 32 consecutive bits never share a
checksum.

*Firmware.* A firmware survives writing and reading if and only if no description
has `HAS_IF`, and an accepted image is reproduced under the same condition. What
the reader accepts is characterised exactly, frequencies included
(`FirmwareFormat.ImageReadIff`). The walk in C and the loop in Perl that exchange
the bytes of chunk headers undo one another.

## Model

| member | source | states |
|---|---|---|
| AribDecoder.StepInv | contrib/gconv/arib-std-b24.c:547-865 | one byte keeps the state invariant (all four sets legal; MB_2ND only for two-byte sets; CTRL_SEQ without a count only behind COL, CDC, MACRO_CTRL, CSI or TIME), and every glyph put out is in range of the table lookups |
| AribDecoder.RunInv | contrib/gconv/arib-std-b24.c:547-865 | the same over every byte stream, also when decoding goes on behind an illegal byte |
| AribDecoder.Resynchronise | contrib/gconv/arib-std-b24.c:551-556 | NUL and then LF bring the decoder from any state to the default state |
| AribDecoder.RunAppend | contrib/gconv/arib-std-b24.c:547-865 | decoding a concatenation continues from the state that the first part leaves |
| AribCharConv.RenderAppend | contrib/gconv/arib-std-b24.c:741-755 | rendering glyphs is a homomorphism up to the first one without code points |
| AribCharConv.DecodeRendersRun | contrib/gconv/arib-std-b24.c:726-863 | the whole decoder puts out the rendering of the glyphs that the state machine recognises, or stops where that rendering stops |
| AribCharConv.ConsumedIsFirst | contrib/gconv/arib-std-b24.c:547-865 | the bytes consumed are the longest prefix that decodes |
| AribDecoderLoop.FromLoop.Reset | contrib/gconv/arib-std-b24.c:176-189 | the default state, output unchanged |
| AribDecoderLoop.FromLoop.Convert | contrib/gconv/arib-std-b24.c:412-545 | the code points of a set and a code are written, and a code without any is the only error; which they are is in the rows of `AribCells` |
| AribDecoderLoop.FromLoop.ControlSequence | contrib/gconv/arib-std-b24.c:557-612 | skipping of control sequences, field by field, against the step function |
| AribDecoderLoop.FromLoop.Escape | contrib/gconv/arib-std-b24.c:614-642 | locking shifts and the choice of a designation, field by field against the step function; what they select is in the rows of `AribWireIn` and `AribWireControl` |
| AribDecoderLoop.FromLoop.Designation | contrib/gconv/arib-std-b24.c:644-724 | the five designation modes |
| AribDecoderLoop.FromLoop.SecondByte | contrib/gconv/arib-std-b24.c:726-759 | the second byte of a two-byte code, with its illegal forms |
| AribDecoderLoop.FromLoop.C0C1 | contrib/gconv/arib-std-b24.c:765-818 | control characters in NORMAL mode |
| AribDecoderLoop.FromLoop.Normal | contrib/gconv/arib-std-b24.c:761-864 | NORMAL mode |
| AribDecoderLoop.FromLoop.Body | contrib/gconv/arib-std-b24.c:547-865 | the loop body on the object's fields is the step function, and keeps the invariant |
| AribDecoderLoop.FromLoop.Loop | contrib/gconv/arib-std-b24.c:547-866 | the loop decodes all bytes, or leaves the input pointer at the first illegal one: the prefix before it decodes, and with it no longer |
| AribWireIn.AlikeRun | contrib/gconv/arib-std-b24.c:165-171 | the fields for the set being designated, the bytes to skip and the byte before matter only in the modes that use them: no input tells states apart that differ in them elsewhere |
| AribWireIn.GraphicByte | contrib/gconv/arib-std-b24.c:831-860 | from every state in NORMAL mode, a byte of the left half is read in the set in GL and one of the right half in the set in GR; behind a single shift the former in the shifted set, once, and the latter is illegal |
| AribWireIn.GraphicPair | contrib/gconv/arib-std-b24.c:726-759 | the same for the two bytes of a two-byte set |
| AribWireIn.BrokenPair | contrib/gconv/arib-std-b24.c:726-740 | a second byte that is a control character or of the other half is illegal, and ends the character and a single shift |
| AribWireIn.Shifts | contrib/gconv/arib-std-b24.c:616-627 | each of the nine shifts, by its bytes: which of G0 to G3 is invoked, and that nothing else changes |
| AribWireIn.ByteBehindShift | contrib/gconv/arib-std-b24.c:616-627 | behind each shift the byte is read in the set shifted to: 0x1b 0x6e in G2, 0x1b 0x6f in G3, 0x1b 0x7e, 0x7d and 0x7c in G1, G2 and G3 |
| AribWireIn.PairBehindShift | contrib/gconv/arib-std-b24.c:616-627 | so are two bytes of a two-byte set |
| AribWireControl.Abandoned | contrib/gconv/arib-std-b24.c:551-612 | in every mode NUL gives a sequence up, and LF resets all but in a control sequence |
| AribWireControl.Escape | contrib/gconv/arib-std-b24.c:767-768 | ESC is followed by one of ten bytes; any other is illegal and changes nothing |
| AribWireControl.DesignateOneByte | contrib/gconv/arib-std-b24.c:666-682 | ESC 0x28+n and a final byte put a one-byte set into Gn and leave the other three; any other byte is illegal and changes nothing |
| AribWireControl.DesignateTwoByteToG0 | contrib/gconv/arib-std-b24.c:644-664 | ESC 0x24 and a final byte put a two-byte set into G0 |
| AribWireControl.DesignateTwoByte | contrib/gconv/arib-std-b24.c:685-702 | ESC 0x24 0x28+n and a final byte put a two-byte set into Gn |
| AribWireControl.DesignateDownloaded | contrib/gconv/arib-std-b24.c:704-713 | ESC 0x28+n 0x20 and 0x41 to 0x4f or 0x70 put downloaded characters or the macros into Gn |
| AribWireControl.DesignateDownloadedTwoByte | contrib/gconv/arib-std-b24.c:715-724 | ESC 0x24 0x28+n 0x20 0x40 puts downloaded two-byte characters into Gn |
| AribWireControl.PassedThrough | contrib/gconv/arib-std-b24.c:783-788 | BEL, BS, CR, the spaces and DEL are passed through, 0xff is replaced, and a single shift ends |
| AribWireControl.PassedOver | contrib/gconv/arib-std-b24.c:789-794 | the control characters that are passed over change nothing, a single shift included |
| AribWireControl.IllegalControl | contrib/gconv/arib-std-b24.c:814-815 | all others are illegal |
| AribWireControl.OneParameter | contrib/gconv/arib-std-b24.c:795-800 | seven control characters take one parameter byte, 0x40 to 0x7f |
| AribWireControl.TwoParameters | contrib/gconv/arib-std-b24.c:801-805 | one takes two; if the first is illegal, the second is still skipped |
| AribWireControl.ColourAndConceal | contrib/gconv/arib-std-b24.c:594-606 | COL and CDC take one parameter byte, or 0x20 and one |
| AribWireControl.ControlSequence | contrib/gconv/arib-std-b24.c:580-593 | CSI takes any number of digits and semicolons and ends with 0x5b, 0x5c or 0x6f, or with 0x20 and a parameter byte; anything else is illegal |
| AribWireControl.TimeControl | contrib/gconv/arib-std-b24.c:582-593 | TIME takes digits, 0x29 and semicolons and ends with 0x20 or 0x28 and a parameter byte |
| AribWireControl.Macro | contrib/gconv/arib-std-b24.c:567-577 | a macro definition swallows everything up to MACRO and a parameter byte; LF or CR breaks it off and resets all |
| AribCells.NonspacingCells | contrib/gconv/arib-std-b24.c:987-990 | the decoder undoes `ucs4_to_nonsp_kanji`, entry by entry, in both sets that reach it |
| AribCells.SmallKanjiCells | contrib/gconv/arib-std-b24.c:365-372 | the six small kanji, by code and code point |
| AribCells.MusicCell | contrib/gconv/arib-std-b24.c:375-409 | the thirty instruments, by code and abbreviation |
| AribCells.SymbolCellIff | contrib/gconv/arib-std-b24.c:467-497 | in the symbol rows a cell has a code point if and only if the encoder lists its code, small kanji and instruments apart, in the kanji set as in that of the extra symbols |
| AribCells.ExtraKanjiCellIff | contrib/gconv/arib-std-b24.c:460-465 | in the extra kanji rows every cell has a code point, which is 0 if and only if the encoder does not list the code |
| AribCells.PlaneCell | contrib/gconv/arib-std-b24.c:514-529 | all other cells of the two-byte sets are those of plane 1 or 2 of JIS X 0213; a small number stands for a pair of code points |
| AribCells.LatinCells | contrib/gconv/arib-std-b24.c:423-432 | the three ASCII sets agree; yen and overline are where backslash and tilde are |
| AribCells.HiraganaCells | contrib/gconv/arib-std-b24.c:442-453 | both hiragana sets: from U+3041 on, a gap, and eight marks |
| AribCells.KatakanaCells | contrib/gconv/arib-std-b24.c:434-440 | both katakana sets: from U+30A1 on, and eight marks |
| AribCells.HalfWidthCells | contrib/gconv/arib-std-b24.c:454-458 | half-width katakana from U+FF61 on, and the rest empty |
| AribCells.ReplacedCells | contrib/gconv/arib-std-b24.c:531-538 | mosaics, downloaded characters and macros are replaced by U+FFFD |
| AribEncoder.EmitAllBound | contrib/gconv/arib-std-b24.c:56 | every emitted character takes 1 to 7 bytes |
| AribEncoder.EmitAllAppend | contrib/gconv/arib-std-b24.c:1119-1387 | emitting a concatenation continues from the shadow that the first part leaves |
| AribEncoder.ClassifyValid | contrib/gconv/arib-std-b24.c:1479-1577 | whatever a code point is turned into, the emitting primitives get arguments in their range, where the kanji primitive also gets code 0 |
| AribEncoder.TurnsValid | contrib/gconv/arib-std-b24.c:1427-1586 | the same over whole texts, and of the buffered character |
| AribEncoder.PiecesJoined | contrib/gconv/arib-std-b24.c:1433-1477 | pairing bases with combining characters loses, duplicates and reorders nothing |
| AribEncoder.PiecesMaximal | contrib/gconv/arib-std-b24.c:1453-1465 | no pair of the composition table is missed |
| AribEncoder.OnePassIsTwoPass | contrib/gconv/arib-std-b24.c:1433-1477 | the loop with its one-character buffer, and a flush that would see the buffer, choose what a two-pass specification chooses |
| AribEncoder.PrevIffEndsInBase | contrib/gconv/arib-std-b24.c:1529-1557 | a character is left in the buffer if and only if the last piece of the text is a base without a combining character |
| AribEncoder.OneCallIsTwoPassIff | contrib/gconv/iconv/loop.c:183-187 | as the state is not stored, a call chooses what the two passes choose if and only if the text, encodable to its end, does not leave a base waiting |
| AribEncoderLoop.ToLoop.InitParams | contrib/gconv/arib-std-b24.c:919-922 | a cleared state becomes the default one, any other stays |
| AribEncoderLoop.ToLoop.OutAscii | contrib/gconv/arib-std-b24.c:1119-1143 | atomic: on FULL_OUTPUT nothing changes, else the specified bytes are appended and the shadow is the specified one |
| AribEncoderLoop.ToLoop.OutG3 | contrib/gconv/arib-std-b24.c:1145-1213 | the same for half-width and full-width katakana |
| AribEncoderLoop.ToLoop.OutHiragana | contrib/gconv/arib-std-b24.c:1215-1248 | the same for hiragana |
| AribEncoderLoop.ToLoop.OutKanaPunc | contrib/gconv/arib-std-b24.c:1268-1290 | the same for punctuation of both kana sets, whose set depends on the shadow as `AribWireOut.SharedMarkBytes` says |
| AribEncoderLoop.ToLoop.OutKanji | contrib/gconv/arib-std-b24.c:1292-1317 | the same for kanji, through GL, and for code 0 |
| AribEncoderLoop.ToLoop.OutJisx0213 | contrib/gconv/arib-std-b24.c:1319-1352 | the same for both planes of JIS X 0213, with the plane the shadow records |
| AribEncoderLoop.ToLoop.OutExtsym | contrib/gconv/arib-std-b24.c:1354-1387 | the same for the extra symbols |
| AribEncoderLoop.ToLoop.OutBuffered | contrib/gconv/arib-std-b24.c:1389-1409 | the buffered character is emitted, and the buffer is empty also when it did not fit |
| AribEncoderLoop.ToLoop.KanaPunc | contrib/gconv/arib-std-b24.c:1250-1266 | the loops find the position in the two punctuation tables, or there is none |
| AribEncoderLoop.ToLoop.FindComposed | contrib/gconv/arib-std-b24.c:1436-1457 | the search finds the entry of the composition table, or there is none |
| AribEncoderLoop.ToLoop.Plain | contrib/gconv/arib-std-b24.c:1479-1577 | one code point with an empty buffer: emitted, buffered, passed over or illegal |
| AribEncoderLoop.ToLoop.Body | contrib/gconv/arib-std-b24.c:1427-1586 | the loop body emits the units of one turn, or a prefix of their bytes when they do not fit |
| AribEncoderLoop.ToLoop.Loop | contrib/gconv/iconv/loop.c:355-383 | the loop emits the units of all turns, or a prefix of their bytes when the output is full |
| AribWireOut.HiraganaBytes | contrib/gconv/arib-std-b24.c:1215-1248 | one byte in the set that is in GR; a locking shift if it is not, and a designation if G2 holds another set, under every shadow |
| AribWireOut.KatakanaBytes | contrib/gconv/arib-std-b24.c:1180-1213 | the same through G3 |
| AribWireOut.HalfWidthBytes | contrib/gconv/arib-std-b24.c:1145-1178 | the same for half-width katakana |
| AribWireOut.SharedMarkBytes | contrib/gconv/arib-std-b24.c:1277-1289 | a mark of both kana sets is one byte if GR holds one of them; else it goes out in the designated one, katakana if both are, and with a new designation of katakana if neither is |
| AribWireOut.SharedMarkDesignatesIff | contrib/gconv/arib-std-b24.c:1277-1289 | a mark of both sets costs a designation if and only if neither is designated |
| AribWireOut.SharedMarkRead | contrib/gconv/arib-std-b24.c:1277-1289 | which of the two sets a decoder in step reads it in |
| AribWireOut.MarkBehindKana | contrib/gconv/arib-std-b24.c:1277-1289 | behind a kana it is one byte, read in the set of that kana |
| AribWireOut.IterationMarkBytes | contrib/gconv/arib-std-b24.c:1274-1275 | the marks of one set go out in that set |
| AribWireOut.AsciiBytes | contrib/gconv/arib-std-b24.c:1119-1143 | LS1 goes in front if and only if GL is not already G1; spaces and controls need none; NUL and LF reset the shadow |
| AribWireOut.KanjiBytes | contrib/gconv/arib-std-b24.c:1292-1317 | two bytes, with LS0 in front if and only if GL is not G0 |
| AribWireOut.Jisx0213Bytes | contrib/gconv/arib-std-b24.c:1319-1352 | two bytes in GR, or SS2 and two in GL; a designation unless the shadow has the plane, and plane 1 is noted down |
| AribWireOut.ExtsymBytes | contrib/gconv/arib-std-b24.c:1354-1387 | two bytes in GR, or SS3 and two in GL; a designation unless the shadow has the set |
| AribWireOut.HiraganaRun | contrib/gconv/arib-std-b24.c:1215-1248 | any run of hiragana and its marks takes one byte a character |
| AribWireOut.ComposedIff | contrib/gconv/arib-std-b24.c:944-985 | a base and a combining character compose if and only if they are one of the 25 listed pairs, to the listed code |
| AribSimulation.FollowBlank | contrib/gconv/arib-std-b24.c:1548-1549 | kanji code 0 goes out as two NULs, from which the decoder reads nothing and keeps in step |
| AribSimulation.Simulate | contrib/gconv/arib-std-b24.c:1119-1387 | the decoder reads the bytes of one character as one glyph, the right one unless it is plane 1 in a stale G2, or none from code 0, and stays in the state that the shadow describes |
| AribRoundTrip.SimulateAll | contrib/gconv/arib-std-b24.c:547-865 | the same over all runs of characters without NUL |
| AribRoundTrip.ClashIsClashAt | contrib/gconv/arib-std-b24.c:1335-1343 | a clash is a plane-1 character with a plane-2 one before it and no hiragana or line feed in between |
| AribRoundTrip.ReadRightIff | contrib/gconv/arib-std-b24.c:1335-1343 | the glyphs are read as chosen if and only if there is no code 0 and no clash |
| AribRoundTrip.RoundTripIff | contrib/gconv/arib-std-b24.c:1119-1409 | decoding the emitted bytes gives the chosen glyphs if and only if there is no NUL, no code 0 and no clash |
| AribRoundTrip.NulKeepsSyncIff | contrib/gconv/arib-std-b24.c:1138-1140 | NUL resets the encoder only: both sides agree behind it if and only if there was nothing to reset |
| AribRoundTrip.PlaneClashExample | contrib/gconv/arib-std-b24.c:1342 | one code in plane 2 and then in plane 1 is read twice in plane 2 |
| AribText.ExtsymIff | contrib/gconv/arib-std-b24.c:992-1116 | the decoder's tables undo every extra-symbol entry but five |
| AribText.BlankIff | contrib/gconv/arib-std-b24.c:1525-1549 | which characters get code 0: those of JIS X 0208, no kana, without a code in JIS X 0213 |
| AribText.PieceReads | contrib/gconv/arib-std-b24.c:412-545 | the glyph of a character or pair is read as its text if and only if it is not lossy, and never so in the wrong plane |
| AribTextRoundTrip.PiecesProper | contrib/gconv/arib-std-b24.c:1433-1557 | a text that encodes without error is made of pieces that the decoder's tables apply to |
| AribTextRoundTrip.ReadTextLength | contrib/gconv/arib-std-b24.c:412-545 | never more code points are read than were written, and fewer if one vanishes |
| AribTextRoundTrip.ReadTextIff | contrib/gconv/arib-std-b24.c:412-545 | if none vanishes, reading the units of a text gives the text if and only if nothing in it is lossy or misread |
| AribTextRoundTrip.LosslessIff | contrib/gconv/arib-std-b24.c:944-985 | bases are never lossy and combining characters only if they have no code, so that pieces and code points agree on it |
| AribTextRoundTrip.TextRoundTripIff | contrib/gconv/arib-std-b24.c:1427-1590 | one call each way gives a text without NUL back if and only if nothing outside a pair is lossy, no base waits at the end and there is no clash |
| AribIconv.OutputBound | contrib/gconv/arib-std-b24.c:56 | seven bytes a code point always suffice |
| AribIconv.Encoder.Call | contrib/gconv/iconv/loop.c:330-391 | a call starts from the default state, whatever was converted before, and leaves the stored state clear |
| AribIconv.Encoder.Flush | contrib/gconv/iconv/skeleton.c:412-436 | the flush emits nothing |
| AribIconv.Encode | contrib/gconv/iconv/skeleton.c:386-640 | a call and the flush emit the units of the loop's turns |
| AribIconv.DecodeBytes | contrib/gconv/arib-std-b24.c:547-866 | one call of the decoder from the default state |
| AribIconv.ThereAndBack | contrib/gconv/arib-std-b24.c:547-1590 | both loops one after the other change a text exactly under the condition of TextRoundTripIff |
| AribIconv.TwoCalls | contrib/gconv/iconv/loop.c:350-391 | two calls emit what one call on the whole text emits, if the first leaves nothing buffered and ends in the default state |
| AribIconv.EndsInLineFeed | contrib/gconv/arib-std-b24.c:1139-1140 | a text that ends in a line feed does both |
| AribExamples.LastBaseIsLost | contrib/gconv/arib-std-b24.c:1529-1557 | a text that is one base is encoded as nothing |
| AribExamples.KanaIsLost | contrib/gconv/arib-std-b24.c:79-86 | U+304B alone gives no bytes, and no text back |
| AribExamples.BlankIsLost | contrib/gconv/arib-std-b24.c:1525-1549 | a character with code 0 is encoded as two NULs and read as nothing |
| AribExamples.NulComesBack | contrib/gconv/arib-std-b24.c:460-465 | NUL can be decoded back: behind NUL two other characters are read as the empty cell of the extra symbols |
| AribExamples.Plane1RoundTripIff | contrib/gconv/arib-std-b24.c:1568-1574 | without characters of plane 2 the condition on planes falls away |
| AribExamples.SampleConsistent | contrib/gconv/arib-std-b24.c:1525-1576 | there are tables that fit every text |
| AribExamples.PlaneClashText | contrib/gconv/arib-std-b24.c:1342 | a text of a plane-2 kanji and a composed kana meets every other condition and does not come back |
| AribWireText.AsciiText | contrib/gconv/arib-std-b24.c:1479-1487 | a text of one ASCII character: LS1 and the character, or one byte for spaces and controls |
| AribWireText.YenAndOverline | contrib/gconv/arib-std-b24.c:1489-1497 | yen sign and overline go out as backslash and tilde |
| AribWireText.HalfWidthText | contrib/gconv/arib-std-b24.c:1489-1497 | the six bytes of one half-width katakana |
| AribWireText.KanaMarkText | contrib/gconv/arib-std-b24.c:1499-1505 | the bytes of each of the ten kana marks, from the default state |
| AribWireText.KanaText | contrib/gconv/arib-std-b24.c:1540-1544 | a kana of JIS X 0208 that is no base is one byte in GR, whatever code JIS X 0213 has for it |
| AribWireText.KanjiText | contrib/gconv/arib-std-b24.c:1545-1549 | any other character of JIS X 0208 is the two bytes of its code in JIS X 0213, and goes out through plane 1 if that is a non-spacing mark |
| AribWireText.Jisx0213Text | contrib/gconv/arib-std-b24.c:1568-1574 | a character that neither JIS X 0208 nor the extra symbols have goes out in its plane |
| AribWireText.ExtsymText | contrib/gconv/arib-std-b24.c:1559-1566 | the extra symbols come before JIS X 0213 |
| AribWireText.UnlistedText | contrib/gconv/arib-std-b24.c:1576-1577 | a character in no table is passed over if it is a tag and else illegal |
| AribWireText.ControlText | contrib/gconv/arib-std-b24.c:1480-1486 | control characters but NUL, BS, LF and CR are illegal |
| AribWireText.StopsThere | contrib/gconv/arib-std-b24.c:1484-1486 | what follows an illegal character does not matter |
| AribWireText.BaseAlone | contrib/gconv/arib-std-b24.c:1529-1557 | a base by itself is encoded as nothing |
| AribWireText.PairText | contrib/gconv/arib-std-b24.c:1459-1467 | a base and its combining character go out as the code of the two in plane 1 |
| AribWireText.BaseAndLineFeed | contrib/gconv/arib-std-b24.c:1389-1409 | in front of a line feed a base goes out as what it stands for alone |
| AribWireText.OneGlyph | contrib/gconv/arib-std-b24.c:547-865 | input that is read as one glyph is decoded as the code points of its cell |
| AribWireText.LockedKana | contrib/gconv/arib-std-b24.c:616-621 | behind 0x1b 0x6e and 0x1b 0x6f a byte of GL is decoded as hiragana and as katakana |
| AribWireText.NonspacingText | contrib/gconv/arib-std-b24.c:503-512 | non-spacing marks of the kanji set, by bytes and code point |
| Strchrnul.HoleUnchangedIff4 | include/v4l-getsubopt.h:125-154 | the carry test on four bytes: fires if and only if a byte is zero or the highest is 0x80 |
| Strchrnul.HoleUnchangedIff8 | include/v4l-getsubopt.h:125-154 | the same on eight bytes |
| Strchrnul.FiresIff4 | include/v4l-getsubopt.h:161-176 | the whole condition of the loop, with the second test for c |
| Strchrnul.FiresIff8 | include/v4l-getsubopt.h:161-176 | the same on eight bytes |
| Strchrnul.TestWord | include/v4l-getsubopt.h:161-176 | on the word at any aligned position, in either byte order |
| Strchrnul.FirstInWord | include/v4l-getsubopt.h:178-202 | the bytes of a word one by one: the first match, or a misfire |
| Strchrnul.Strchrnul | include/v4l-getsubopt.h:74-207 | the search ends, at the first c or NUL |
| Strchrnul.FirstIsUnique | include/v4l-getsubopt.h:73-74 | there is only one such position |
| Getsubopt.StrchrnulBrackets | include/v4l-getsubopt.h:24-43 | the bracket variant stops at NUL or at the first c with as many opening as closing brackets before it |
| Getsubopt.PieceEnd | include/v4l-getsubopt.h:250-251 | either search finds the end of the piece that the specification cuts off |
| Getsubopt.DepthCounts | include/v4l-getsubopt.h:33-41 | the bracket depth is the number of opening brackets less that of closing ones, whatever their order |
| Getsubopt.PieceLenIff | include/v4l-getsubopt.h:250-251 | a piece ends at the first comma with as many opening as closing brackets before it; in the other build, at the first comma |
| Getsubopt.CutIsSeparators | include/v4l-getsubopt.h:267-269 | what becomes NUL are exactly those commas of the whole string |
| Getsubopt.BracketsHeeded | include/v4l-getsubopt.h:33-41 | "((),)" is one piece |
| Getsubopt.PiecesOfTerminated | include/v4l-getsubopt.h:241-282 | cutting joined pieces gives the pieces |
| Getsubopt.TerminatedPieces | include/v4l-getsubopt.h:241-282 | joining the pieces of a string gives the string, up to a comma at its end |
| Getsubopt.FindEquals | include/v4l-getsubopt.h:253-256 | the end of the name: the first equals sign of the piece, or its end |
| Getsubopt.CutAt | include/v4l-getsubopt.h:267-269 | one separating byte becomes NUL, and the pointer passes it |
| Getsubopt.Getsubopt | include/v4l-getsubopt.h:241-282 | the least index of a token equal to the name or -1, where both pointers are left, and that one byte changes |
| Getsubopt.ValueRead | include/v4l-getsubopt.h:235-240 | what the caller reads through the value pointer: the value, the whole unknown piece, or nothing for a token without a value |
| Getsubopt.Suboptions | include/v4l-getsubopt.h:241-282 | calling until NUL visits exactly the pieces, in order; afterwards each is a string of its own, each value is read through its pointer, and only separating commas have changed |
| Crc32.TableEntry | lib/libdvbv5/crc32.c:23-67 | every table entry is its index shifted through the register by eight zero bits |
| Crc32.StepByteIsZero8 | lib/libdvbv5/crc32.c:72 | one turn of the loop adds the byte at the top and shifts eight zeros |
| Crc32.DvbCrc32 | lib/libdvbv5/crc32.c:69-74 | the loop computes the bit-serial CRC |
| Crc32.TableIsShiftRegister | lib/libdvbv5/crc32.c:69-74 | the table-driven form equals the shift register for every message and seed |
| Crc32.CrcBitsAppend | lib/libdvbv5/crc32.c:69-74 | the bit-serial form composes over concatenation |
| Crc32.CrcBytesAppend | lib/libdvbv5/crc32.c:69-74 | so does the table-driven form |
| Crc32.CrcLinear | lib/libdvbv5/crc32.c:69-74 | it is linear over exclusive or, in message and seed |
| Crc32.CrcBitsBijective | lib/libdvbv5/crc32.c:69-74 | the register can be run backwards |
| Crc32.CrcBijective | lib/libdvbv5/crc32.c:69-74 | for a fixed message the checksum is a bijection of the seed |
| Crc32.FourBytes | lib/libdvbv5/crc32.c:69-74 | four bytes entering are one word added and 32 zeros shifted |
| Crc32.AppendedCrcIsZeroIff | lib/libdvbv5/crc32.c:69-74 | four bytes behind a message give checksum 0 if and only if they are its big-endian checksum |
| Crc32.WindowInjective | lib/libdvbv5/crc32.c:69-74 | 32 different bits never lead from one state to one state |
| Crc32.BurstDetected | lib/libdvbv5/crc32.c:69-74 | messages that differ only within 32 consecutive bits have different checksums |
| Firmware.FirmwareFile.Read | contrib/xc3028-firmware/firmware-tool.c:131-186 | the reader's outcome and the firmware it fills in |
| Firmware.FirmwareFile.Write | contrib/xc3028-firmware/firmware-tool.c:188-228 | the writer fills a buffer of the precomputed size with exactly the format's bytes |
| Firmware.WrittenSize | contrib/xc3028-firmware/firmware-tool.c:194-197 | the precomputed size is the number of bytes written |
| Firmware.FirmwareFile.Add | contrib/xc3028-firmware/firmware-tool.c:99-109 | a description is appended; the 16-bit count wraps |
| Firmware.FirmwareFile.Delete | contrib/xc3028-firmware/firmware-tool.c:111-124 | the description at an index is removed, if there is one |
| Firmware.ReadOfWritten | contrib/xc3028-firmware/firmware-tool.c:131-228 | a firmware without HAS_IF is read back from its bytes, whatever follows them |
| Firmware.WrittenOfRead | contrib/xc3028-firmware/firmware-tool.c:131-228 | writing an accepted image without HAS_IF reproduces the bytes consumed |
| Firmware.RoundTripIff | contrib/xc3028-firmware/firmware-tool.c:131-228 | a firmware survives writing and reading if and only if it has no HAS_IF description |
| Firmware.RewriteIff | contrib/xc3028-firmware/firmware-tool.c:131-228 | an accepted image is reproduced if and only if it has no HAS_IF description |
| Firmware.HasIfIsLost | contrib/xc3028-firmware/firmware-tool.c:163-166 | one empty HAS_IF description is written so that the reader runs past the end |
| FirmwareFormat.ReadDescriptionIff | contrib/xc3028-firmware/firmware-tool.c:153-180 | a description is read if and only if it is laid out there, with a frequency field if it has HAS_IF |
| FirmwareFormat.ImageReadIff | contrib/xc3028-firmware/firmware-tool.c:131-186 | an image is accepted if and only if it is laid out so, and read as what was laid out, frequencies included |
| FirmwareFormat.DescriptionOutcome | contrib/xc3028-firmware/firmware-tool.c:153-178 | why a description is not read: its fixed part is cut short, its size field lies behind the end, or its data do |
| FirmwareFormat.HasIfBit | contrib/xc3028-firmware/firmware-tool.c:163 | HAS_IF is bit 6 of the fourth byte of a description |
| FirmwareFormat.WrittenLacksFrequency | contrib/xc3028-firmware/firmware-tool.c:211-224 | the writer leaves out the frequency field and nothing else |
| ChunkStream.ChangeEndian | contrib/xc3028-firmware/firmware-tool.c:650-660 | the walk in place exchanges the bytes of exactly the headers |
| ChunkStream.WriteHunkFixEndian | contrib/xc3028-firmware/extract_head.h:96-121 | the Perl loop writes the stream with the bytes of its big-endian headers exchanged |
| ChunkStream.SwappedTwice | contrib/xc3028-firmware/extract_head.h:108-120 | walking with the other byte order undoes the exchange and stays within bounds |
| ChunkStream.SwappedAt | contrib/xc3028-firmware/firmware-tool.c:651-660 | every byte outside the headers stays in place |
| ChunkBytes.FirstChunk | contrib/xc3028-firmware/firmware-tool.c:651-660 | in either byte order: a header of 1 to 0x7fff has a payload of that length, kept as far as there is one, and any other header none |
| ChunkBytes.SwappedOfCompiled | contrib/xc3028-firmware/firmware-tool.c:650-660 | the walk turns a compiled stream into the same lines with big-endian headers |
| StandardData.Vector.Enlarge | contrib/xc3028-firmware/standards.c:50-59 | for any size asked for, the contents are copied to a fresh buffer of the larger size; doubling keeps the bound on the bytes copied |
| StandardData.Vector.Copy | contrib/xc3028-firmware/standards.c:61-67 | bytes are stored behind an unchanged prefix |
| StandardData.WriteAll | contrib/xc3028-firmware/standards.c:50-67 | in-order writes of any lengths leave their concatenation, and all enlargements together copy fewer bytes than the final capacity |
| StandardData.CreateStandardData | contrib/xc3028-firmware/standards.c:87-150 | the compiler's output for any list of lines |
| ChunkBytes.LineIs | contrib/xc3028-firmware/standards.c:107-138 | the bytes of each kind of line, the length little-endian and modulo 65536 |
| ChunkBytes.CompiledIs | contrib/xc3028-firmware/standards.c:130-141 | a compiled stream is its lines in order and 0xff 0xff |
| StandardData.WalkOfCompiledIff | contrib/xc3028-firmware/standards.c:120-142 | the chunk walk over the output visits exactly the lines and ends at 0xffff, if and only if every hex line has 1 to 0x7fff bytes |
| SRecord.StrToChar | contrib/cobalt-ctl/s-record.c:46-52 | pairs of characters are stored as bytes, and nothing else changes |
| SRecord.SearchS | contrib/cobalt-ctl/s-record.c:65 | the next "S" before a NUL |
| SRecord.Switch | contrib/cobalt-ctl/s-record.c:74-101 | what a line is taken for, with the one-byte wrap of its length |
| SRecord.ToBin | contrib/cobalt-ctl/s-record.c:54-120 | the loop's result and flash contents on any file, up to an access outside its buffers |
| SRecordText.OverlayAt | contrib/cobalt-ctl/s-record.c:108-109 | each flash byte is that of the last record covering it, and unchanged without one |
| SRecordText.PairValue | contrib/cobalt-ctl/s-record.c:31-44 | two hexadecimal digits of either case stand for their value |
| SRecordText.NewlineFound | contrib/cobalt-ctl/s-record.c:64-69 | LF and CRLF are told apart if and only if there is a second line |
| SRecordText.RunRecordsIff | contrib/cobalt-ctl/s-record.c:75-106 | all records are stored if and only if none counts more than 253 and every address plus digit count is within the flash |
| SRecordText.RunTooLong | contrib/cobalt-ctl/s-record.c:75-78 | a count of 254 or 255 wraps the length, and the conversion ends with an error at that line |
| SRecordText.ConvertText | contrib/cobalt-ctl/s-record.c:54-120 | a text of S0 and S3 records is converted if and only if it has two lines and all records fit, none counting more than 253; then the flash holds the overlay and the result is the total payload size |
| SRecordText.LineSpells | contrib/cobalt-ctl/s-record.c:82-96 | every record has a line |
| SRecordOther.OtherEnds | contrib/cobalt-ctl/s-record.c:96-99 | a line that is neither S0 nor S3 ends the conversion with an error |
| SRecordOther.OtherLineIsError | contrib/cobalt-ctl/s-record.c:54-120 | a text of records that fit and then such a line, like the usual S7 at the end: the records are stored, and yet the result is an error |
| SRecordOther.RunBehind | contrib/cobalt-ctl/s-record.c:81-117 | records that fit are stored, and conversion goes on with whatever follows |
| SRecordOther.NoDigits | contrib/cobalt-ctl/s-record.c:31-39 | what characters are taken for that are no hexadecimal digits |
| Descriptors.HeadTakesIff | lib/libdvbv5/descriptors.c:144-203 | the next descriptor is taken if and only if its bytes are next, its handler accepts it and memory is left |
| Descriptors.Parse | lib/libdvbv5/descriptors.c:135-212 | on every path the list on the heap holds the parsed descriptors in order, in fresh nodes, and the return code is the one of `Descriptors.StopReasonIff` |
| Descriptors.Append | lib/libdvbv5/descriptors.c:205-209 | a node is linked behind the last one, and nothing else changes |
| Descriptors.ParsedIsPrefix | lib/libdvbv5/descriptors.c:144-211 | the parsed descriptors serialise to a prefix of the buffer, and the parser has stopped at what follows |
| Descriptors.StopReasonIff | lib/libdvbv5/descriptors.c:144-211 | the return code in terms of the bytes behind the parsed descriptors: 0 if and only if there is no header or it is 0xff, -1 if and only if the payload is cut short, -2 if and only if the type has no size, -3 if and only if memory is used up, -4 if and only if the handler refuses |
| Descriptors.FirstParsed | lib/libdvbv5/descriptors.c:144-209 | where the first descriptor lies and where the next one |
| Descriptors.HeldPayload | lib/libdvbv5/descriptors.c:175-192 | a node holds the payload itself or what the init function makes of it |
| Descriptors.ParsedIsLongest | lib/libdvbv5/descriptors.c:144-211 | no list of accepted descriptors that begins the buffer goes further |
| Descriptors.ParseOfSerialised | lib/libdvbv5/descriptors.c:135-212 | serialised descriptors are read back, whatever stops the parser behind them |
| Descriptors.Acyclic | lib/libdvbv5/descriptors.c:205-209 | no node occurs twice in a linked list |
| Descriptors.NodesUnique | lib/libdvbv5/descriptors.c:226-237 | a list has one sequence of nodes |
| Descriptors.Free | lib/libdvbv5/descriptors.c:226-237 | every node is released once, in order |
| Descriptors.Bcd | lib/libdvbv5/descriptors.c:1352-1361 | the value of the digits, without wrapping on 32 bits |
| Descriptors.DigitsShifted | lib/libdvbv5/descriptors.c:1352-1361 | four bits more are one decimal digit more |
| Descriptors.EightDigits | lib/libdvbv5/descriptors.c:1352-1361 | 0x12345678 is read as 12345678 |
| Descriptors.DigitsOfToBcd | lib/libdvbv5/descriptors.c:1352-1361 | decoding undoes BCD encoding |
| Descriptors.ToBcdOfDigitsIff | lib/libdvbv5/descriptors.c:1352-1361 | encoding undoes decoding if and only if every digit is below ten |
| Table00.CharOfCell | contrib/gconv/en300-468-tab00.c:271-373 | every cell of the encoder is one byte, or two with a composing first byte, and is decoded as its character |
| Table00.CellOfSingle | contrib/gconv/en300-468-tab00.c:25-59 | every one-byte code is what its character is encoded as |
| Table00.CellOfComposed | contrib/gconv/en300-468-tab00.c:61-268 | so is every two-byte code |
| Table00Loops.ToBody | contrib/gconv/en300-468-tab00.c:461-558 | one character is written whole or not at all, also when its first byte was already stored |
| Table00Loops.ToLoop | contrib/gconv/en300-468-tab00.c:461-561 | the encoder's loop on one output buffer |
| Table00Loops.FromLoop | contrib/gconv/en300-468-tab00.c:393-444 | the decoder's loop, with incomplete and illegal input |
| Table00Loops.DecodeOfEncode | contrib/gconv/en300-468-tab00.c:393-558 | every encodable text is decoded back, up to the tags passed over |
| Table00Loops.EncodeOfDecode | contrib/gconv/en300-468-tab00.c:393-558 | every byte string that is decoded to its end is what its text is encoded as |
| Table00Loops.OneBuffer | contrib/gconv/en300-468-tab00.c:536-556 | one call leaves off between characters, and makes progress with room for two bytes |
| Table00Loops.SeriesIsOneShot | contrib/gconv/en300-468-tab00.c:536-556 | over any series of buffers nothing is lost, repeated or torn; with room for two bytes in each, as many buffers as characters give the one-shot result |
| Table00Loops.OneByteIsStuck | contrib/gconv/en300-468-tab00.c:547-553 | with room for one byte a call makes no progress exactly before a two-byte character |
| Table00Stops.CharIff | contrib/gconv/en300-468-tab00.c:393-432 | bytes stand for a character if and only if it is encoded as them |
| Table00Stops.SomeUnits | contrib/gconv/en300-468-tab00.c:271-373 | some characters by their bytes, the euro sign among them |
| Table00Stops.ToStops | contrib/gconv/en300-468-tab00.c:523-539 | the encoder stops at the first character that has no code and is no tag, with everything before it written |
| Table00Stops.TagsPassedOver | contrib/gconv/en300-468-tab00.c:523-533 | tags, U+E0000 to U+E007F, are passed over |
| Table00Stops.FromStops | contrib/gconv/en300-468-tab00.c:396-435 | the decoder stops at the first bytes that no character is encoded as, and before a composing byte at the end |

## Left out

- Transliteration, ignoring of errors and incomplete UCS-4 input in contrib/gconv/iconv, the steps behind the last one, and resuming after FULL_OUTPUT: the ARIB loop bodies change their state before they report full output. The error handler is modelled as stopping with illegal input.
- The counting of irreversible conversions, and the size of the decoders' output buffers in bytes: the ARIB decoder writes to an unbounded one, that of table 00 has room for a number of characters.
- NUL is not part of the texts of `AribTextRoundTrip`; it is covered at the level of characters by `AribRoundTrip.RoundTripIff` and `AribRoundTrip.NulKeepsSyncIff`.
- The tables that contrib/gconv/jis0208.h and contrib/gconv/jisx0213.h look up are glibc's and not part of this model, nor is the binary search `bsearch`: they are functions of the datatype `Jis`. What the theorems on texts ask of them, at the characters of the text, is the predicate `Consistent`.
- The lookup of non-spacing kanji at contrib/gconv/arib-std-b24.c:1507-1523, whose guard no code point meets.
- AribEncoderLoop.ToLoop.OutG3: states `out_jisx0201` and `out_katakana` together, which differ in the set and the byte written.
- AribEncoderLoop.ToLoop.Loop: when the output is full, says only that a prefix of the specified bytes was written and not which code point comes next, because the source does not support resuming there; and when the bytes just fill the output, not whether input was left.
- Strchrnul.Strchrnul: memory ends at the end of a word, so that the bytes behind the terminator up to there may be read; reading them is undefined in C proper.
- Getsubopt.StrchrnulBrackets: does not model the overflow of `in_brackets`.
- Getsubopt.Getsubopt: tokens have no NUL, so that `strncmp` and the check of the byte behind amount to equality; the `valuep` that an empty string leaves alone is passed in.
- Firmware.FirmwareFile.Read: a size field that lies behind the end, which the C code reads all the same for a HAS_IF description, is an outcome of its own. What an error leaves in the object, which is then freed, is not stated.
- Firmware.HasIfIsLost: is one instance; the whole family is in `Firmware.RoundTripIff`.
- Table00Stops.SomeUnits: is a handful of instances; that the two tables are inverse to one another is in `Table00.CharOfCell` and its two partners.
- StandardData.CreateStandardData: starts from lines already told apart; the reading of text with `getline`, `sscanf` and `memcmp` is left out, and a little-endian machine is assumed. Vectors stay below 2 GB, so that `unsigned int` does not wrap.
- SRecord.ToBin: stops with the outcome `Stray` where the C code would read outside the file or write outside the flash. Output and timing are left out.
- Descriptors.Parse: an init function is given as a function of the payload that leaves the header alone (none in lib/libdvbv5/descriptors assigns it); what they decode is not modelled. Logging is left out.
- Descriptors.Free: returns the nodes in the order of their release; the memory they occupied and the `free` functions of single descriptors are not modelled.
- Failing allocations other than the `calloc` of `dvb_desc_parse`.
- The searching half of `seek_chunks`, all file access, listing and option parsing of the firmware tools and of cobalt-ctl.
- include/linux/cec-funcs.h, lib/libdvbv5/countries.c, contrib/rds-saa6588, contrib/decode_tm6000 and the rest of the repository: straight-line packing, constant tables, device access and user interfaces, which would only add easy members.
