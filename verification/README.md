# OpenDKIM, modelled and verified in Dafny

OpenDKIM signs and verifies mail by DKIM (RFC 4871); its resolver library, libar, looks up keys without blocking.
This project models the parts of both that have the most state: the streaming canonicalization of message bodies, the
canonicalization and choice of header fields, the signature header field (printing, line breaking, parsing, taking its
signature out again), the splitting of a message that arrives in pieces, the verifying handle with all its calls, the
resolver's queues, timers and limits, the address parser that writes its results over the text it reads, base64, and
the copied header fields of `z=`.

Code that changes things step by step is written as classes and methods with loops; each is proved against a
specification, a pure function on whole inputs, and the specifications are then related to the standards and to each
other. Bytes are characters. Modules, in the order in which they build on each other:

| module | what it is about |
|---|---|
| Text, Spacing | character classes, joining and splitting strings; bytes by their codes, texts as words and gaps |
| BodySpec, BodyWindow, CrlfRepair, BodyCanon, BodyRun, BodyLaws | bodies: sections 3.4.3 to 3.4.5 of RFC 4871, the automaton, its window on a chunk, the repair of bare CRs and LFs, the buffer with its limit, whole bodies in any chunks, the canonical forms by their bytes |
| Base64 | section 6.8 of RFC 2045 |
| HeaderCanon, HeaderSelect, HeaderLaws | header fields: sections 3.4.2 and 5.4 of RFC 4871, also by their bytes |
| SigHeader, Layout, StripLaws, TagList, TagLaws, PrintParse | the signature field: sections 3.2 and 3.7 of RFC 4871; where its lines break, what is left of it without its signature, which lists are accepted |
| CopiedHeaders, CopyLaws | the `z=` tag |
| Splitter | a message in pieces |
| Verdict, VerdictLaws | the verifying handle, any calls in any order |
| EndToEnd | what the signer hashes and what the verifier hashes, for one message |
| Mailbox, Addresses | addresses: section 3.4 of RFC 2822 |
| ArQueues, ResolverTime | the resolver |
| BodyCounterexamples, VerdictExample, Counterexamples | inputs on which a property one would like fails; the exact conditions are in the other modules |

Where a law does not hold of the code for all inputs, the code is modelled as it is and the law is stated with the
exact condition under which it holds. All conditions are on what a caller has before the call.

- Bodies (`BodyRun.HashBody`), repaired or not, whatever the chunks and the limit `l=`. The hash is that of the
  canonical form cut at the limit if and only if none of these happens before the limit:
  - a chunk ends in two or more white space bytes and a CR (`NoSpill`, relaxed form only: a byte too many is hashed);
  - the end of a relaxed body is not as `TailKept` has it: there must be a line of text, at most the line after it may
    hold white space, and all others after it must be exactly empty, so that a body of empty lines alone fails too;
    a body whose last line is text must not end in a bare CR;
  - with the repair, a bare CR at a cut stands on a blank line, not the first, and only line breaks follow (`NoEarly`: its CRLF is
    written at once, while blank lines are to be held back);
  - a simple body ends inside a line (a bare CR that is not repaired any more counts as that), and something has been
    written by then (`EndFits`). As long as nothing has been written, dkim_canon_closebody adds the missing CRLF;
    `Written` says when something has: at a chunk that ends with a line break or is empty, beyond
    4096 bytes, or when a first line without its end fills the buffer.
- The text that `dkim_canon_fixcrlf` makes of a chunk that ends in a bare CR lacks an LF
  (`CrlfRepair.FixRunRepairs`); `dkim_canon_bodychunk` supplies it at the next chunk, so that what is hashed is the
  repaired body, except for a bare CR at its very end (`CrlfRepair.StreamRepairs`).
- `h=` on a line of its own loses colons that stand directly after a colon (`strtok_r` skips them).
  `PrintParse.PrintedSame` has the condition. It concerns the printer alone: the names of the fields a signer has
  chosen never give two colons together (`EndToEnd.NamesListed`); an empty name in a list of fields to sign always
  would, and such lists are not part of this model.
- White space after the `@` of an address without angle brackets becomes part of the domain, when that is an atom
  (`Addresses.BareAddress`).
- A printed line may be one column over the margin: the space in front of a tag and the colon after a name of `h=` are
  not counted (`Layout.LinesFit`).
- A `z=` entry whose encoding does not fit its 4 KB buffer is cut (`CopiedHeaders.CopiesComeBack`).
- `ar_elapsed` carries only above a million microseconds, so an interval whose microseconds add up to exactly a
  second is over one instant early (`ResolverTime.ElapsedIs`).
- `dkim_eom` settles on the first signature that passes when it is run. If every signature that counts was processed
  at the end of the headers, and there is no final callback, it returns `DKIM_STAT_OK` if and only if one of them is
  good by its flags then and by the body (`Verdict.Verifier.Eom`, `GoodFor`). When processing is delayed, and nothing
  passes yet, a signature that is good when it is run in its turn is missed if and only if an earlier one is run only
  now, passes, and turns out to have the wrong subdomain or a field that had to be signed and is not
  (`Verdict.GoodIsMissed`; `VerdictExample.SecondIsGood` is such a message). In all cases the result is that of
  `Verdict.Concluded`, which is determined by the signatures found and the answers to come.
- The limit `l=` is carried from one signature of a message to those after it. A signature without `l=` is verified
  without a limit if and only if no signature before it has left one (`Verdict.OwnLimit`;
  `VerdictExample.CarriedLimit`).

## Model

| member | source | states |
|---|---|---|
| BodySpec.StreamableMeans | libopendkim/dkim-canon.c:1456-1519 | the bodies considered are exactly those that start with no LF and in which a byte is LF if and only if the one before it is CR |
| BodySpec.WholeSimple | libopendkim/dkim-canon.c:1456-1519 | the simple output of any text, byte by byte, is the form of section 3.4.3, less its last CRLF exactly when the last line is not complete |
| BodySpec.WholeRelaxed | libopendkim/dkim-canon.c:1521-1631 | the relaxed output of any text starts with the form of section 3.4.4, and is this form exactly when the end is well kept; it lacks the last CRLF when the text ends in a line of text and a CR |
| BodySpec.Released | libopendkim/dkim-canon.c:1456-1621 | blank lines held back stay so exactly as long as nothing but line breaks follows; else they come out first |
| BodySpec.OutMonotone | libopendkim/dkim-canon.c:1456-1631 | output once due for a prefix of a body is never taken back by more body |
| BodyWindow.WindowCloses | libopendkim/dkim-canon.c:1628-1631 | at the end of a chunk the open window, less a CR at its end, completes what is due, but for one byte when the cut comes after white space and a CR; on an empty line nothing is left |
| BodyCanon.LawWrite | libopendkim/dkim-canon.c:137-184 | writing what is held keeps the law that the bytes hashed are the submissions in order, cut at the limit |
| BodyCanon.Canon.constructor | libopendkim/dkim-canon.c:850-937 | a canonicalization starts with nothing hashed and all of its limit left |
| BodyCanon.Canon.Write | libopendkim/dkim-canon.c:137-184 | hashes its bytes up to what is left of the limit, and counts exactly those |
| BodyCanon.Canon.Buffer | libopendkim/dkim-canon.c:198-238 | keeps hashed bytes then buffered bytes equal to all submissions in order, hashed ones cut at the limit; an empty submission empties the buffer; says exactly when the first byte leaves the buffer |
| BodyCanon.Canon.FlushBlanks | libopendkim/dkim-canon.c:429-439 | submits one CRLF for every blank line held back |
| BodyCanon.Canon.ReadNewline | libopendkim/dkim-canon.c:1456-1519 | reading an LF keeps the automaton in step with the body read so far |
| BodyCanon.Canon.LoneCr | libopendkim/dkim-canon.c:1488-1505 | a CR that ended the chunk before is repaired by a CRLF, and the automaton is then in step with the repaired text, one blank line ahead if that line is blank; without the repair the CR is hashed |
| BodyCanon.Canon.SimpleByte | libopendkim/dkim-canon.c:1456-1519 | reading any other byte, simple, keeps them in step, with the LF before it that repairs a CR at a cut |
| BodyCanon.Canon.RelaxedByte | libopendkim/dkim-canon.c:1521-1621 | reading any other byte, relaxed, keeps them in step, with the LF before it that repairs a CR at a cut |
| BodyCanon.Canon.BodyChunk | libopendkim/dkim-canon.c:1408-1635 | a chunk is read completely, repaired if so asked, unless the canonicalization is finished or its limit reached, when nothing changes; says exactly when a byte too many or a blank line too early is submitted, and when anything is written |
| BodyCanon.Canon.CloseBody | libopendkim/dkim-canon.c:1647-1707 | what was hashed is everything submitted, cut at the limit; a simple body of nothing gets its CRLF; a second call changes nothing |
| BodyCanon.MinBody | libopendkim/dkim-canon.c:1369-1392 | -1 exactly when some canonicalization wants all of the body, else the most that any of them still wants |
| BodyRun.Run | libopendkim/dkim-canon.c:1408-1635 | any number of chunks leaves submitted what is due for the body so far, up to the chunk at which the limit is reached |
| BodyRun.RelaxedVerdict | libopendkim/dkim-canon.c:1521-1707 | what has been submitted, cut at the limit, is the relaxed form cut at the limit exactly when no spilled byte, no early blank line and no bad tail comes before the limit |
| BodyRun.SimpleVerdict | libopendkim/dkim-canon.c:1456-1707 | the same of the simple form, with no early blank line and no incomplete last line, unless dkim_canon_closebody completes it |
| BodyRun.HashBody | libopendkim/dkim-canon.c:1408-1707 | for every body, repaired or with its CRs and LFs in pairs, every division into chunks and every `l=`: the hash is that of section 3.4.3 or 3.4.4, cut at `l=`, exactly when the conditions listed above hold |
| BodyRun.SimpleRight | libopendkim/dkim-canon.c:1456-1519 | they hold for every simple body that is empty or ends in CRLF, in any chunks that have no bare CR at a cut |
| BodyLaws.LineIs | libopendkim/dkim-canon.c:1568-1621 | the relaxed form of any line, taken apart into words and gaps of bytes 9, 11, 12 and 32: the words with one space between any two, one space in front of them if the line starts with a gap, and none behind them |
| BodyLaws.RelaxedBodyIs | libopendkim/dkim-canon.c:1521-1621 | the relaxed form of a body: the relaxed forms of its lines up to the last that is not empty, each with bytes 13 and 10 |
| BodyLaws.UnendedIs | libopendkim/dkim-canon.c:1647-1690 | a last line without a line break counts exactly if its relaxed form is not empty |
| BodyLaws.SimpleBodyIs | libopendkim/dkim-canon.c:1660-1665 | the simple form of a body: its trailing line breaks, if there are any, become one, and one is added if there are none |
| BodyLaws.RepairIs | libopendkim/dkim-canon.c:651-678 | a line ended by LF, CR or both comes out with both, and what follows is repaired on its own |
| CrlfRepair.FixChunk | libopendkim/dkim-canon.c:629-681 | computes the repair of a chunk given the byte before it |
| CrlfRepair.FixKeeps | libopendkim/dkim-canon.c:651-678 | where every CR and LF belongs to a CRLF a chunk is left as it is |
| CrlfRepair.RepairTwice | libopendkim/dkim-canon.c:651-678 | repairing a repaired text changes nothing |
| CrlfRepair.StreamRepairs | libopendkim/dkim-canon.c:1488-1505 | what the automaton reads of all chunks, with the LFs it supplies at cuts, is the repaired body, less the LF of a bare CR at its very end |
| CrlfRepair.FixRunRepairs | libopendkim/dkim-canon.c:651-678 | the texts dkim_canon_fixcrlf makes of the pieces join to the repaired whole exactly when no piece ends in a bare CR |
| Base64.EncodeLength | libopendkim/base64.c:145-203 | the encoding has four characters for every three bytes begun |
| Base64.LetterIs | libopendkim/base64.c:21-39 | which letter stands for which of the 64 values, both ways |
| Base64.AlphabetIs | libopendkim/base64.c:76-82 | the characters that count are exactly these letters |
| Base64.ThreeEncoded | libopendkim/base64.c:163-181 | three bytes, read as one number, are written as its four digits to base 64 |
| Base64.RestEncoded | libopendkim/base64.c:183-200 | one byte or two at the end are filled up with zero bits to two or three digits, and the rest of the four is padding |
| Base64.UniteSplit | libopendkim/base64.c:59-203 | regrouping bytes into six-bit values and back gives the bytes |
| Base64.EncodeTo | libopendkim/base64.c:145-203 | the shifting accumulator writes the encoding, or reports -1 exactly when the buffer is too small for it |
| Base64.DecodeTo | libopendkim/base64.c:58-129 | returns -2 exactly when room for three bytes a group is lacking, -1 exactly when one character is left over, and else has written the bytes of the characters that count |
| Base64.NoisyPayload | libopendkim/base64.c:69-103 | bytes outside the alphabet, put in before the padding, make no difference |
| Base64.RoundTrip | libopendkim/base64.c:58-203 | encoding, putting in such bytes, and decoding gives the bytes back exactly when there is room for three bytes a group |
| HeaderCanon.StageName | libopendkim/dkim-canon.c:295-338 | the field name goes out in lower case and without white space, through the staging buffer |
| HeaderCanon.StageValue | libopendkim/dkim-canon.c:340-405 | the words of the value go out with single spaces between them, through the staging buffer |
| HeaderCanon.CanonHeader | libopendkim/dkim-canon.c:253-417 | for every text the buffered output is the text (simple) or its relaxed form, with a CRLF when asked for |
| HeaderCanon.RelaxedHeaderBlind | libopendkim/dkim-canon.c:295-408 | the relaxed form does not depend on the case of the name, on white space around the colon, or on the kind and amount of white space between words |
| HeaderCanon.RelaxedHeaderTwice | libopendkim/dkim-canon.c:295-408 | the relaxed form of a relaxed form is itself |
| HeaderLaws.RelaxedHeaderIs | libopendkim/dkim-canon.c:295-408 | the relaxed form of any field, name and value taken apart into words and gaps of bytes 9 to 13 and 32: the words of the name close together with 32 added to bytes 65 to 90, a colon, and the words of the value with one space between any two |
| HeaderLaws.RelaxedBytes | libopendkim/dkim-canon.c:295-408 | for every text: no capital letter and no white space in front of the colon, and no white space after it but single spaces between words |
| HeaderSelect.SelectHdrs | libopendkim/dkim-canon.c:463-611 | without a list all fields are taken; with one, the loops over its names, the fields and the scratch array choose, name by name, the last field of that name not yet chosen, and flag exactly those |
| HeaderLaws.SelectsAlike | libopendkim/dkim-canon.c:569-599 | a name selects the last field not yet used whose name agrees with it but for 32 added to bytes 65 to 90 |
| HeaderLaws.SelectsNext | libopendkim/dkim-canon.c:555-605 | one name more in the list selects the last field alike that has not been selected, and nothing if there is none; the selection before stays |
| HeaderLaws.SelectsCounted | libopendkim/dkim-canon.c:555-605 | a field is selected exactly when the fields alike, counted from the bottom up to it, are no more than the names alike |
| HeaderLaws.ListedIs | libopendkim/dkim-canon.c:517-553 | the names in a list are its pieces between colons but for the empty ones, without white space at their ends |
| HeaderLaws.ListedPart | libopendkim/dkim-canon.c:517-524 | of a list of 4096 bytes or more only the first 4095 are read |
| HeaderSelect.SelectBottomUp | libopendkim/dkim-canon.c:555-605 | no field is chosen twice, and of two chosen fields of one name the later one in the message comes first |
| HeaderSelect.SelectShift | libopendkim/dkim-canon.c:555-605 | fields put in front of a message do not change a selection that found every name |
| HeaderSelect.SignerTakesAll | libopendkim/dkim-canon.c:1048-1106 | the names of the fields to be signed select all of these fields |
| HeaderSelect.NamesToSign | libopendkim/dkim-canon.c:1048-1098 | the signer's list is the names of the fields to be signed, joined by colons, but for empty names at the front |
| HeaderSelect.PrintedNames | libopendkim/dkim.c:2108-2145 | the `h=` list printed is the names of the flagged fields, joined by colons |
| HeaderSelect.ListedJoined | libopendkim/dkim-canon.c:517-553 | a list printed from well-formed names and short enough for its copy is read back as those names |
| HeaderSelect.SignThenVerify | libopendkim/dkim.c:2108-2145 | the `h=` list printed by the signer makes the verifier choose the same fields in the same order, with any fields put in front |
| SigHeader.GenSigHdr | libopendkim/dkim.c:2029-2239 | the tags, delimited, with an empty `b=` last |
| SigHeader.PrintColons | libopendkim/dkim.c:5822-5862 | an `h=` on a new line is broken before any name that would pass the margin |
| SigHeader.PrintAtMargin | libopendkim/dkim.c:5863-5896 | other long values are broken wherever the margin is reached |
| SigHeader.GetSigHdr | libopendkim/dkim.c:5713-5926 | the header printed is the specified layout of the tags and the signature, for every margin |
| Layout.LinesFit | libopendkim/dkim.c:5787-5917 | every line of the field printed, by its text alone, is within the margin, or one column beyond it with a colon or a tag at its end, or holds one thing that cannot be broken: a tag, a name of `h=`, a byte |
| Layout.BreaksWhere | libopendkim/dkim.c:5800-5812 | a line is broken between two tags exactly where the second would have passed the margin, or where `b=` and its signature would have |
| Layout.NameBreaks | libopendkim/dkim.c:5840-5856 | within `h=` a line is broken before a name exactly where it would have passed the margin |
| Layout.ByteBreaks | libopendkim/dkim.c:5876-5892 | within `b=`, `bh=` and `z=` it is broken exactly after the byte that reaches the margin, unless this is the last |
| SigHeader.BreakColonsWraps | libopendkim/dkim.c:5822-5862 | breaking a list of names puts in white space only |
| SigHeader.MergeKeeps | libopendkim/dkim.c:5828-5860 | splitting at colons and joining again changes a text exactly when two colons stand together |
| SigHeader.PlaceShape | libopendkim/dkim.c:5787-5917 | every tag is printed as white space, its name, `=`, its value with at most white space put in and colons merged, and a semicolon |
| SigHeader.PlaceB | libopendkim/dkim.c:5797-5917 | an empty `b=` and one with a signature of the announced length are placed alike, thanks to the forced wrap |
| SigHeader.RemoveSignature | libopendkim/dkim-canon.c:1144-1197 | the loop, with its buffer, removes exactly the values of tags whose name ends in b |
| SigHeader.StripSplit | libopendkim/dkim-canon.c:1148-1185 | what is removed from a text depends on what precedes it only through the current tag and the last byte |
| StripLaws.StripIs | libopendkim/dkim-canon.c:1148-1185 | of any field exactly the values are removed of those tags whose first equals sign comes right after the letter b, up to the next semicolon |
| StripLaws.PartsOf | libopendkim/dkim-canon.c:1148-1185 | every field is made of such tags and others, with semicolons between them |
| SigHeader.SignedIsEmitted | libopendkim/dkim.c:5759-5918 | for every margin and tag list, removing the signature from the header emitted gives the header that was signed, byte for byte |
| SigHeader.PrintSignStrip | libopendkim/dkim-canon.c:1148-1197 | printing unsigned, printing signed and removing the signature, by the code: verifier and signer hash the same header |
| TagList.AddPlist | libopendkim/dkim.c:356-395 | finds the first parameter of that name without regard to case; replaces its value only when forced; puts a new one in front |
| HeaderLaws.FindsAlike | libopendkim/dkim.c:368-376 | the parameter of a name is the first whose name agrees with it but for 32 added to bytes 65 to 90 |
| TagList.ReadByte | libopendkim/dkim.c:489-620 | every byte that is not the end of a parameter keeps the parser's variables in step with the grammar |
| TagList.SegmentEnds | libopendkim/dkim.c:515-653 | at the end of a parameter the variables hold its name and value, or it is not a parameter |
| TagList.BadByte | libopendkim/dkim.c:489-534 | a byte the parser rejects makes the parameter ungrammatical |
| TagList.ProcessSet | libopendkim/dkim.c:414-823 | the byte-by-byte parser accepts exactly the lists of the grammar with readable bytes, the required tags and proper numbers, and returns their parameters with the defaults added |
| TagLaws.NumeralOk | libopendkim/dkim.c:678-704 | a number below 2^64 - 1 written in decimal, zeros and a plus sign in front of it or not, is a proper number, and no greater one is |
| TagLaws.OnlyNumerals | libopendkim/dkim.c:678-704 | nothing else is: not an empty value, not one with a minus sign or any byte that is no digit |
| TagLaws.SignatureRead | libopendkim/dkim.c:662-770 | a signature's list, with all the white space there may be, is accepted exactly when it has s, h, d, b, v and a, and its `t=` and `x=` are proper numbers; then every name and value is read as it is meant |
| TagLaws.OtherRead | libopendkim/dkim.c:778-818 | a policy is accepted exactly when it has `dkim=`, a key always |
| TagLaws.AcceptedHas | libopendkim/dkim.c:662-770 | of any text at all: what is accepted as a signature has these six tags, and its times are numbers |
| TagLaws.DefaultsAre | libopendkim/dkim.c:755-816 | what is not given, in any case of letters, gets simple/simple, dns/txt, rsa and the stars, by its name and kind of list, and nothing else gets anything |
| TagLaws.BytesAre | libopendkim/dkim.c:475-485 | the bytes a list may hold, by their codes |
| TagLaws.BadBytes | libopendkim/dkim.c:475-485 | any other byte makes a list a bad one |
| TagLaws.LastRead | libopendkim/dkim.c:626-653 | the last tag may lack its semicolon |
| TagLaws.NotAList | libopendkim/dkim.c:489-534 | after a tag without an equals sign, with a name in two parts, or with one that starts with no letter or digit, nothing is read: the list is bad |
| TagList.AddDefaults | libopendkim/dkim.c:755-816 | afterwards every name has the value it was given, or else, when no name like it was given, the default of this kind of list, or else none |
| PrintParse.LaterWins | libopendkim/dkim.c:356-395 | with names that differ in more than case, the value found is that of the last tag of that name |
| PrintParse.AllDifferent | libopendkim/dkim.c:356-395 | with all names different the list holds exactly the tags |
| TagList.DefaultsFill | libopendkim/dkim.c:755-816 | a default never replaces a value that was given |
| TagList.AddDefault | libopendkim/dkim.c:356-395 | a default is added exactly when no name is like it; one in another case keeps it out; other names are not concerned |
| PrintParse.LeadIgnored | libopendkim/dkim.c:491-495 | white space before a list changes nothing |
| PrintParse.ParsePrinted | libopendkim/dkim.c:475-653 | parsing the printed tags and then any text is parsing that text with the tags already listed |
| PrintParse.PrintedSame | libopendkim/dkim.c:5822-5862 | the tags are printed as given exactly when no `h=` on a new line has two colons together |
| PrintParse.PrintThenParse | libopendkim/dkim.c:475-770 | for every margin, a printed header parses to exactly the tags as printed and the signature, with the defaults |
| PrintParse.PrintAndParse | libopendkim/dkim.c:5713-5926 | the same of the code: printer and then parser |
| CopiedHeaders.CopyHeader | libopendkim/dkim.c:2191-2228 | a header is staged as its encoding, as far as it fits |
| CopiedHeaders.StagedIs | libopendkim/dkim.c:2206-2225 | what is staged is always a prefix of the encoding, and all of it exactly when it fits with the terminator of its last escape |
| CopyLaws.EncodedBytes | libopendkim/dkim.c:2206-2225 | an encoding holds bytes 33 to 126 only, and no semicolon |
| CopyLaws.EncodedByte | libopendkim/dkim.c:2206-2225 | a visible byte but for ';' and '=' stands for itself, any other is an equals sign and its two capital hexadecimal digits |
| CopyLaws.EncodedEach | libopendkim/dkim.c:2206-2225 | the bytes of a text are encoded one after the other |
| CopiedHeaders.PrintCopies | libopendkim/dkim.c:2174-2229 | the `z=` value is the staged encodings, a bar between them |
| CopiedHeaders.DecodePart | libopendkim/dkim.c:4963-4992 | a whole encoding decodes to the text, a part of one to less or not at all |
| CopyLaws.DecodesUnits | libopendkim/dkim.c:4968-4992 | bytes other than '=', and equals signs with two digits, capital or small, are decoded to their values |
| CopyLaws.OnlyUnitsDecoded | libopendkim/dkim.c:4968-4992 | nothing else is decoded |
| CopiedHeaders.DecodePiece | libopendkim/dkim.c:4968-4992 | decoding over the text being read gives what decoding from a copy gives, and touches nothing else |
| CopiedHeaders.NextPiece | libopendkim/dkim.c:4964-4966 | finds the next piece between bars |
| CopiedHeaders.OriginalHeaders | libopendkim/dkim.c:4903-5002 | succeeds exactly when every piece decodes; then the count is the number of pieces and the pointers are to the decoded texts, in order |
| CopiedHeaders.CopiesComeBack | libopendkim/dkim.c:2174-2229 | decoding a printed `z=` gives the same headers in the same order exactly when every encoding fits the buffer |
| Splitter.Splitter.Chunk | libopendkim/dkim.c:5417-5568 | a chunk advances the splitter as its bytes one after the other would, unless an inner call fails |
| Splitter.Splitter.End | libopendkim/dkim.c:5449-5470 | the end call hands over a field that is not complete, ends the fields if that has not happened, even when nothing has come, and ends the splitting |
| Splitter.ReadMore | libopendkim/dkim.c:5476-5567 | bytes are read the same in any pieces |
| Splitter.ReadField | libopendkim/dkim.c:5478-5512 | within a field, folds, bare CRs and bare LFs and all, no byte makes a call |
| Splitter.ReadLong | libopendkim/dkim-util.c:422-450 | of a field of more than 65535 bytes the first 65535 are kept |
| Splitter.ReadCrCr | libopendkim/dkim.c:5478-5497 | after two CRs an LF does not end a line |
| Splitter.ReadCrFirst | libopendkim/dkim.c:5499-5555 | a line that starts with a CR and no LF after it is the next field |
| Splitter.ReadLine | libopendkim/dkim.c:5494-5530 | a field after a field hands over the one before it, without its CRLF |
| Splitter.ReadMessage | libopendkim/dkim.c:5417-5568 | a whole message is read as its fields, in order, and its body |
| Splitter.SplitMessage | libopendkim/dkim.c:5417-5568 | for every division into chunks, and unless an inner call fails, the calls are one per field, one for the end of the fields, and bodies that join to the body |
| Verdict.SigOkLater | libopendkim/dkim.c:4648-4884 | what a signature's flags promise stays true when canonicalizations are added or finished |
| Verdict.FirstPassing | libopendkim/dkim.c:3450-3461 | the first signature that has passed, is not ignored and matches the body |
| Verdict.Verifier.constructor | libopendkim/dkim.c:3594-3627 | a new handle has no signatures |
| Verdict.Verifier.Ignore | libopendkim/dkim.c:7048-7054 | sets the flag of this signature only |
| Verdict.Verifier.SharedKey | libopendkim/dkim.c:2456-2504 | finds the first other signature processed with the same selector and domain |
| Verdict.KeyFrom | libopendkim/dkim.c:2434-2720 | success leaves the error alone, with a good record and a key, that of the signature it is shared with if that has one; nothing but the error, the key, its record and the flags of the key changes |
| Verdict.KeyMeans | libopendkim/dkim.c:2434-2720 | the result and the error for every answer to the lookup and every fault of the record, and which flags of the key are set |
| Verdict.Verifier.GetKey | libopendkim/dkim.c:2434-2720 | the key is shared with the first other signature found by the loop |
| Verdict.RecordFault | libopendkim/dkim.c:2592-2718 | a record has no fault exactly when it is good for this signature and the key is there; says when it cannot be used and when its key is revoked |
| Verdict.CheckupMeans | libopendkim/dkim.c:4669-4804 | PASSED is set exactly when RSA accepts the digest of the headers with this key, and else an error; every other way out with success sets an error |
| Verdict.CheckupErrors | libopendkim/dkim.c:4669-4804 | what each result of getting the key makes of the signature: its error, and whether it counts as processed |
| Verdict.JudgedMeans | libopendkim/dkim.c:4806-4880 | the body hash is compared once the body is done; a wrong subdomain or a field that must be signed and is not is an error, and which; without them a compared body clears the error |
| VerdictLaws.SubdomainMeans | libopendkim/dkim.c:4828-4850 | with t=s in the key a signature is wrong exactly when the domain of its identity, after the first `@`, is not its own, letter case apart |
| Verdict.ProcessedMeans | libopendkim/dkim.c:4648-4884 | what processing makes of a signature at any time: nothing if it is ignored or in error, and at the end of the message it passes exactly when RSA has accepted it and the body matches |
| Verdict.Verifier.Process | libopendkim/dkim.c:4648-4884 | keeps the invariant, changes only this signature, and does nothing to one ignored or in error |
| Verdict.Verifier.AddCanon | libopendkim/dkim-canon.c:850-937 | body canonicalizations with the same parameters are shared and no others |
| Verdict.Verifier.SetupList | libopendkim/dkim.c:1564-2005 | every well-formed signature gets a record that is refused or ready, never one that seems to match already; one that is ready has the limit in force when its turn came |
| Verdict.LimitLeft | libopendkim/dkim.c:1804-1826 | there is a limit in force exactly when some signature before has left one, and it is the one left last |
| Verdict.OwnLimit | libopendkim/dkim.c:1804-1826 | a signature is verified with its own `l=`, or with none if it has none, exactly when it has one or no signature before it has left one |
| Verdict.Verifier.RunHeaders | libopendkim/dkim-canon.c:956-1254 | finishes every header canonicalization before the first that fails, and no other; fails exactly when there is one |
| Verdict.Verifier.Callback | libopendkim/dkim.c:3427-3446 | whatever a callback ignores and processes, the invariant holds; how its answer is taken |
| Verdict.Verifier.Header | libopendkim/dkim.c:5202-5300 | refused exactly after the header stage; else malformed, or taken, with the signature found in it |
| Verdict.Verifier.Eoh | libopendkim/dkim.c:2885-3086 | for every call the result and what is left: refused when too late; no sender; no signature; the prescreen callback's answer; all ignored; a canonicalization that fails; the first result of processing that is not success, or that nothing can be good when that is checked |
| Verdict.Verifier.ProcessAll | libopendkim/dkim.c:3030-3050 | processes the signatures that count and have not been, in order, until one gives an error |
| Verdict.Verifier.AnyGood | libopendkim/dkim.c:3052-3083 | true exactly when a signature is neither ignored nor in error nor processed without passing |
| Verdict.Verifier.Body | libopendkim/dkim.c:5365-5379 | refused exactly after the body stage; else the chunk is canonicalized unless the body is skipped |
| Verdict.Verifier.CloseBody | libopendkim/dkim-canon.c:1647-1707 | finishes every body canonicalization with what was written for the body, and changes no finished one |
| Verdict.Verifier.MarkTooLarge | libopendkim/dkim.c:3412-3425 | marks exactly the signatures whose `l=` exceeds what was written |
| Verdict.Verifier.Choose | libopendkim/dkim.c:3450-3490 | finds the first signature that passes, running those that have not been run; if none passed before, it is the first that passes on being run in turn |
| Verdict.Verifier.Result | libopendkim/dkim.c:3516-3554 | the result for every error and flags: DKIM_STAT_NOKEY, KEYFAIL, REVOKED for theirs; BADSIG for a bad signature, or with error 0 or unknown for PASSED missing or the wrong body; OK with both; CANTVRFY for all other errors |
| Verdict.Verifier.Eom | libopendkim/dkim.c:3344-3555 | DKIM_STAT_OK exactly when the signatures found, and the answers to come, are accepted; if all were processed at the end of the headers, exactly when one of them is good by its flags and the body; and then the signature chosen is genuine: not ignored, PASSED by RSA on the header digest, MATCH, its `bh=` is the base64 of the digest of the canonical body, which is no shorter than `l=`, its identity is in the signing domain if the key asks for that, and it covers the fields that must be signed. Otherwise the result is that of the signature settled on: the first that passes, or the first not ignored; DKIM_STAT_NOSIG exactly when all are ignored, or there is none and a sender was found; DKIM_STAT_INVALID when it is called at the wrong time; what the final callback answers |
| Verdict.ForgedIsBad | libopendkim/dkim.c:3492-3537 | when RSA has refused every signature that counts, the result is DKIM_STAT_BADSIG |
| Verdict.RunMeans | libopendkim/dkim.c:3463-3490 | when a signature that is run at the end of the message passes, and when it is then right |
| Verdict.AcceptsInTurn | libopendkim/dkim.c:3463-3490 | when nothing passes yet, the verdict is good exactly when some signature, run in its turn, passes with nothing wrong, and none before it passes |
| Verdict.GoodIsMissed | libopendkim/dkim.c:3449-3490 | a signature that is good when it is run in its turn, be it before the end of the message or only now, is missed exactly when an earlier one, run only now, passes first and is found wrong |
| Verdict.GoodStays | libopendkim/dkim.c:4806-4880 | a signature processed before the end of the message, and good, is good in its turn, whatever the answers |
| Verdict.Session | libopendkim/dkim.c:3344-3555 | any calls in any order with any answers: DKIM_STAT_OK at most once, and only for a genuine signature |
| Mailbox.MatchingParen | libopendkim/rfc2822.c:110-134 | finds the matching parenthesis of the text not yet read, nested and escaped ones passed over |
| Mailbox.FindSpecial | libopendkim/rfc2822.c:148-229 | finds the character that decides how an address is read, or the error |
| Mailbox.ReadToken | libopendkim/rfc2822.c:247-336 | finds the next token and whether white space came before it, or the error |
| Mailbox.MoveDown | libopendkim/rfc2822.c:411-412 | copying a token down overwrites nothing still to be read |
| Mailbox.SplitAngle | libopendkim/rfc2822.c:381-416 | at every turn the writer is behind the reader and the rest is unchanged; the result in place is that of the specification which only reads |
| Mailbox.SplitBare | libopendkim/rfc2822.c:425-462 | the same for an address without brackets, where a space may be written between words |
| Mailbox.MailboxSplit | libopendkim/rfc2822.c:354-467 | terminates for every text, stays inside it, and leaves at its front exactly what the specification returns, with everything after the terminator unchanged |
| Addresses.MatchComment | libopendkim/rfc2822.c:110-134 | the inside of any well-nested comment, escapes included, is passed over |
| Addresses.SkipBlank | libopendkim/rfc2822.c:270-288 | any comments and white space are passed over, and white space outside comments is noticed |
| Addresses.SpecialItems | libopendkim/rfc2822.c:159-225 | words, quoted strings, domain literals, comments and white space never decide how an address is read |
| Addresses.TokenPart | libopendkim/rfc2822.c:247-336 | after any blanks the next token is the whole atom, quoted string or domain literal |
| Addresses.BareAddress | libopendkim/rfc2822.c:354-467 | a bare address of atoms, quoted strings and domain literals gives its local part, and its domain exactly unless this is an atom with white space outside comments between the `@` and it |
| Addresses.GroupAddress | libopendkim/rfc2822.c:354-467 | the first address of a group is read like any other |
| Addresses.AngleAddress | libopendkim/rfc2822.c:354-467 | after any phrase, an address in angle brackets gives exactly its local part and domain, with any source route in front of them and any blanks between its tokens |
| Addresses.OpenFails | libopendkim/rfc2822.c:148-229 | a comment, quoted string or domain literal that is not closed is an error, and which |
| ArQueues.StepConserves | libar/ar.c:405-629 | no operation loses or doubles a query |
| ArQueues.StepApart | libar/ar.c:405-629 | no operation puts a query into two lists or twice into one |
| ArQueues.RunConserves | libar/ar.c:405-629 | over any run the lists stay free of repetition, and each query is there as often as it was at the start or submitted, less how often it was taken out for reuse |
| ArQueues.Lib.Obtain | libar/ar.c:1617-1640 | a query comes from the front of the recycle list, or is new |
| ArQueues.Lib.Submit | libar/ar.c:1677-1689 | the query goes to the end of the pending list, tail pointer included |
| ArQueues.Lib.Send | libar/ar.c:1088-1114 | the first pending query goes to the end of the active list |
| ArQueues.Lib.Requery | libar/ar.c:527-574 | an active query goes to the front of the pending list |
| ArQueues.Lib.Requeue | libar/ar.c:590-629 | pending becomes active followed by pending |
| ArQueues.Lib.Cancel | libar/ar.c:1749-1824 | a query of either list goes to the recycle list; 1 exactly when it was in neither |
| ArQueues.Lib.AllDead | libar/ar.c:405-438 | active becomes active followed by pending, every one of them flagged |
| ResolverTime.TimeLeft | libar/ar.c:253-296 | the time left, normalised, and 0 from the end on |
| ResolverTime.ElapsedIs | libar/ar.c:310-334 | exactly when an interval counts as over |
| ResolverTime.LeastWaitIs | libar/ar.c:816-842 | the least wait, in microseconds, is at most ten million seconds, the time to the next sending of every query, and the time to the expiry of those that have one, and is one of these, or 0 if one is past |
| ResolverTime.SelectTimeout | libar/ar.c:816-842 | the timeout computed is the least wait, normalised |
| ResolverTime.Dispatcher.SendQuery | libar/ar.c:642-759 | a query is sent, with its counter and time updated, exactly when it has not been sent ar_retries times and can be made; else it is marked in error, and when it cannot be written, answered |
| ResolverTime.Dispatcher.Write | libar/ar.c:1088-1156 | the first pending query is sent and moved to the end of the active ones; if there is none, the first active query that is to be sent again is sent; no other is touched |
| ResolverTime.Dispatcher.RetryOne | libar/ar.c:1170-1197 | the first active query whose interval is over is sent again, and no other is touched; over TCP the connection is made anew instead; nothing happens if there is no such query |
| ResolverTime.Dispatcher.Reply | libar/ar.c:1005-1086 | a CNAME is followed exactly while the depth lasts and the reply fits, uses one of the depth up and queues the query again; any other reply is packed up |
| ResolverTime.Dispatcher.MarkExpired | libar/ar.c:1157-1168 | exactly the active queries without a reply whose time is past are marked |
| ResolverTime.Dispatcher.Reconnect | libar/ar.c:453-513 | a new connection queues everything active again; without one every query is active and in error, and the resolver is dead |
| ResolverTime.Dispatcher.Turn | libar/ar.c:801-1200 | every turn of the dispatcher keeps the limits and loses no query; it is the last when the connection is lost for good |
| ResolverTime.Dispatcher.RunEvents | libar/ar.c:801-1200 | however long it runs, whatever is added and cancelled meanwhile, and whether the connection is lost or not, no query is sent more than ar_retries times nor followed through more CNAMEs than its depth |
| EndToEnd.HashBodies | libopendkim/dkim-canon.c:1408-1707 | for every limit of the signer: when its body hash is right, the verifier's, over other pieces of the body as it was sent and up to the `l=` the signer has printed, is the same exactly when no condition fails for these pieces; without a printed `l=`, exactly when the signer's limit is not inside the body |
| EndToEnd.AcceptedBody | libopendkim/dkim.c:3344-3555 | a signature that dkim_eom accepts is for this body: its `bh=` is the base64 of the digest of the canonical form cut at the limit, which hashing the body again gives |
| EndToEnd.SomeLibHashes | libopendkim/dkim-canon.c:1408-1707 | any library of the verifying handle can have such body hashes |
| EndToEnd.FeedSigner | libopendkim/dkim-canon.c:1040-1346 | the signer hashes the fields it has chosen, in canonical form and order, and the signature field as it is without a signature |
| EndToEnd.FeedVerifier | libopendkim/dkim-canon.c:1105-1207 | the verifier hashes the fields that the `h=` tag it has parsed chooses, and the signature field less its signature |
| EndToEnd.HRead | libopendkim/dkim.c:475-770 | for every margin the signature field can be read exactly when it has the tags it must have, and the `h=` tag read is the one printed |
| EndToEnd.PrintedWhole | libopendkim/dkim.c:5759-5918 | no tag of a signature field loses anything when it is printed |
| EndToEnd.SignAndVerify | libopendkim/dkim-canon.c:1040-1346 | choosing, canonicalizing, printing, then with fields put in front parsing, choosing, stripping and canonicalizing: the verifier gets there exactly when the tags are all that a signature must have, and then its hash is fed byte for byte what the signer's was |
| BodyCounterexamples.SpilledCut | libopendkim/dkim-canon.c:1584-1631 | a body and a cut for which the relaxed hash is wrong |
| BodyCounterexamples.SpacedTail | libopendkim/dkim-canon.c:1521-1621 | a body whose tail makes the relaxed hash wrong |
| BodyCounterexamples.NoText | libopendkim/dkim-canon.c:1521-1621 | a body without text, which makes the relaxed hash wrong |
| BodyCounterexamples.EarlyBreak | libopendkim/dkim-canon.c:1488-1505 | a bare CR at a cut, in the blank lines at the end, which makes the hash wrong |
| BodyCounterexamples.BareEnd | libopendkim/dkim-canon.c:1660-1665 | a bare CR at the very end, whose CRLF is written or not depending on the chunks |
| BodyCounterexamples.CutAfterBareCr | libopendkim/dkim-canon.c:651-678 | a bare CR at a cut: its LF is missing in the text of the first chunk, but not in what the automaton reads |
| VerdictExample.SecondIsGood | libopendkim/dkim.c:3463-3490 | a message with a good signature, none being run before its end, that dkim_eom misses, and accepts once the other one is ignored |
| VerdictExample.CarriedLimit | libopendkim/dkim.c:1804-1826 | a signature without `l=` that is verified with the limit of the one before |
| Counterexamples.SpaceAfterAt | libopendkim/rfc2822.c:425-462 | an address whose domain comes out with a space |
| Counterexamples.ColonsLost | libopendkim/dkim.c:5822-5862 | an `h=` for which the printer loses a colon when it breaks it |
| Counterexamples.CopyCut | libopendkim/dkim.c:2206-2225 | a field too long for the `z=` tag |
| Counterexamples.OverAtOnce | libar/ar.c:310-334 | an interval that is over one instant early |

## Left out

- OpenSSL, SHA and RSA: a hash is the sequence of bytes fed to it, or an arbitrary function; RSA is an arbitrary predicate. Temporary files are not modelled.
- Sockets, threads, select() and DNS packets: the resolver's regions under its lock are atomic steps, and what arrives is arbitrary. The counter ar_resend is kept in the queue module only where queries leave a list, and not used to limit resending.
- Allocation and its failures, options and accessors. The reputation, policy and file lookups and dkim_diffheaders are not part of this model.
- Bodies with bare CR or LF when they are not repaired.
- The list of canonicalizations in dkim_canon_bodychunk: BodyCanon has one of them, and Verdict takes what each writes as a function of its parameters and the body.
- HeaderSelect.SelectHdrs: the scratch array has one slot more than in the source, which writes past its end when names are left over after every field is taken.
- HeaderSelect.SignThenVerify: no list of fields to sign always; the expression that chooses fields to sign is any choice that does not look at case.
- TagList.ProcessSet: the parser overwrites `=` and semicolons of its copy by NUL and collapses names and values there; here these are slices of the text. A key of which dkim_add_plist stores a pointer is its text.
- SigHeader.GetSigHdr: the tags are a list of names and values; how dkim_gensighdr computes each value is not modelled, except for `h=` and `z=`.
- CopiedHeaders.CopyHeader: header bytes are ASCII, since the source prints other bytes with a sign extension. A second dkim_ohdrs finds the tag cut and decoded by the first.
- Verdict.Verifier.SetupList: the checks of dkim_siglist_setup on each signature are arbitrary, as is the time.
- Verdict.KeyFrom: a signature whose key comes from another does not get the length of its base64 text, so that one which takes the key from this one in turn is given no bytes of it; here it has the same key.
- Verdict.Verifier.Callback: callbacks may ignore and process signatures before they answer; the key lookup callback only answers.
- Verdict.JudgedMeans: whether a field that must be signed is not is an arbitrary function of the signature, since dkim_sig_hdrsigned does not match names exactly.
- Verdict.Verifier.RunHeaders: the text hashed is arbitrary there; EndToEnd has which.
- Verdict.Verifier.Chunk: dkim_chunk makes arbitrary calls there; Splitter has which.
- Splitter.Splitter.Chunk: a field with nothing in it, which dkim_header does not accept, is passed on as an empty text.
- Mailbox.MailboxSplit: the text has no NUL before its end; the pointer arithmetic of isascii() on signed characters is not modelled.
- ResolverTime.Dispatcher.Turn: it works on the lists as sequences, which ArQueues has linked; time values are normalised when they come in; a malformed packet does not end the loop.
- The signing handle (dkim_eoh_sign, dkim_eom_sign): its parts that compute something are modelled with the verifier's.
