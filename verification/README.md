# nvIPFIX runtime in Dafny

A model of the C runtime of nvIPFIX and of the readers built on it, with proofs of what they
guarantee. Each module follows one part of the program:

| module | part of the program |
|---|---|
| `Sequences`, `Options` | small shared definitions |
| `Text` | what tokenizing and trimming mean, on plain strings, and their algebra |
| `Strings` | the string list, the one-pass tokenizer and the in-place trimmer, proved against `Text` |
| `HashTable` | the 8-bit hash table: 255 embedded roots, each heading an unbalanced search tree |
| `Numbers`, `Values`, `NumberTexts` | number reading (base 0 as in section 7.20.1.4 of ISO/IEC 9899:1999), the typed value parsers, and what they make of any numeral |
| `Config`, `ConfigLaws`, `ConfigTexts` | the configuration reader as a state machine over lines and tokens, its guarantees, and the names and characters it heeds |
| `DataList` | the doubly linked list of records |
| `Import`, `ImportLaws`, `RecordLaws`, `ImportTexts` | the offline importer, its round trip, the independence of items, and what it does with texts as they are found |
| `Export` | the record loop of the exporter and the per-collector counters |
| `Calendar`, `CalendarDays` | date-time conversions in a zone with a fixed offset, and the calendar with its month lengths written out |

Code that works by changing things step by step is a class or a method with loops: hash nodes,
list links, character buffers, the reader's globals and the collector counters are updated in
place. Each such method is proved against a function of the old state, and the lemmas prove what
the program promises about that function.

## Main results

* **The hash table is a map with an owner's ledger.** Adding, looking up and tearing down keep an
  invariant over the heap: every bucket is an acyclic search tree ordered by key length and then
  bytes, no node is shared, every key sits in the row it hashes to, and the trees hold exactly the
  entries of a map. Over any run of calls that starts from a NULL table, in which memory and copies
  may fail, a lookup yields what the last call that took effect stored (`RunIsLastAdded`), and
  tearing the table down releases every value exactly as often as it entered (`AddAllThenFree`).
* **Tokenizing and trimming have exact meanings.** The automaton yields the maximal delimiter-free
  runs, and one empty token after a bare end (`StringSplit`, `SplitMeaning`); splitting undoes
  joining; the trimmer leaves the longest slice with kept ends and writes nothing past the original
  terminator.
* **The configuration reader reads back what a printer writes**, in any layout of lines that fit the
  buffer (`ReadBack`, `PrintThenRead`). For every file, well-formed or not, each parser call goes to
  a proper target (`EveryWriteIsProper`), and blank lines, comments and spacing are immaterial
  (`LayoutIsImmaterial`) but for the one case stated below.
* **The importer inverts a compact printer** for every list of records, each printed with its items in
  an order of its own (`ImportInvertsPrint`); the order of items and unknown items are immaterial.
* **Value parsers invert their printers**, with the exact range on which they do.

## Where the code differs from what one might expect

* An empty hash key is indistinguishable from an unused root. Its value is hidden until a non-empty
  key opens row 0, which then inherits that value as its old value; torn down before that, the
  table never releases it. `Put`, `RunIsLastAdded` and `AddAllThenFree` state this exactly.
* The table has 255 rows for 256 hash values, so keys that hash to 255 have no row
  (`SomeKeyHasNoRow`); the operations require a row.
* A failed copy on an existing table is reported as a failure although the key is there, with NULL;
  on the first call it leaves no table (`HashtableAdd`).
* Base 0 makes a leading 0 octal: a date-time field printed as 08 or 09 is read as 0
  (`PaddedDatetimeRoundTrip` gives the exact condition).
* The time span parser never reports success, and above 2147 seconds its microseconds overflow an
  int (`TimespanBound`).
* A setting name without a value is handed the empty text when two or more blanks follow it, the
  line feed among them, and nothing when only one does. String settings then become empty and dscp
  becomes 0; addresses, transports and intervals keep what they held (`EmptyValue`,
  `LineIsItsWords`, `TrailingBlanksCanMatter`).
* A last configuration line without a line feed is dropped, and so is everything from a line too
  long for the buffer on (`TailIsDropped`, `TextDivides`).
* Blanks before the first record of an array are imported as a record without values, and blanks
  after the comma behind a record leave a quote and a brace in its last value (`BlankRecord`,
  `BlanksAfterRecord`).
* A brace after a setting inside a collector loses the collector (`ForeignBrace`, `ForeignBlock`).
* A JSON-like document with no records imports its closing brace as the data token, which has none.
* The exporter's seconds are those of the local clock (`ExportedSecondsAreLocal`).

## Model

| member | source | states |
|---|---|---|
| `Text.SplitMeaning` | src/types.c:330-394 | the tokens are exactly the maximal delimiter-free stretches, in order and separated, plus one empty token exactly when the input ends in a delimiter that is alone or follows another; no tokens exactly for the empty input |
| `Text.SplitConservesCharacters` | src/types.c:348-391 | the concatenated tokens are the input with its delimiters removed |
| `Text.SplitUndoesJoin` | src/types.c:330-394 | words joined by any non-empty delimiter runs come back as exactly those words |
| `Text.RunsAppend` | src/types.c:348-391 | tokenizing distributes over concatenation whenever a delimiter stands at the seam |
| `Text.TrimMeaning` | src/types.c:422-459 | trimming yields the longest slice whose ends are kept characters, cuts only removable characters, and is idempotent |
| `Text.TrimIs` | src/types.c:422-459 | a core with kept ends is what remains of it between any removable prefix and suffix |
| `Strings.StringList.constructor` | src/types.c:70-105 | adding to a NULL list makes a one-element list |
| `Strings.StringList.Append` | src/types.c:70-105 | the value is appended; the items already there stay, relinked at the tail only |
| `Strings.ListAdd` | src/types.c:70-105 | both cases of adding: a new one-element list, or the same list with the value appended |
| `Strings.LinksAgree` | src/types.c:70-105 | walking next from head, or prev from tail, visits the contents in order, or in reverse, and ends after as many items as the count says |
| `Strings.CharsetMap` | src/types.c:336-341 | the table marks exactly the characters of the list |
| `Strings.ScanCharacter` | src/types.c:349-375 | one character of the loop decides whether a token is ready, and which one, as the automaton does |
| `Strings.StringSplit` | src/types.c:330-394 | the one-pass automaton returns a sound fresh list whose contents are the tokens of the input |
| `Strings.EmissionsAreSplit` | src/types.c:348-391 | the stretches the automaton emits, character by character, are the maximal runs and the final empty token |
| `Strings.Tokens` | src/import.c:139-148 | walking the list from head along next visits the tokens in order |
| `Strings.CutRight` | src/types.c:440-446 | the right-to-left loop leaves the input without its removable suffix |
| `Strings.ShiftLeft` | src/types.c:448-458 | the left scan and the overlapping move leave the input without its removable prefix |
| `Strings.StringTrim` | src/types.c:422-459 | the buffer holds the trimmed string and no byte at or after the original terminator changes |
| `Strings.StringTrimCopy` | src/types.c:461-475 | the copy is the trimmed string |
| `HashTable.ComputeHash` | src/types.c:143-156 | the loop computes the xor of the bytes, each shifted by its position, in 8 bits |
| `HashTable.CompareIsTotalOrder` | src/types.c:170-189 | comparing by length and then bytes is a strict total order on all keys |
| `HashTable.CompareIsLexicographic` | src/types.c:170-189 | shorter keys come first, and between keys of one length the first different byte decides |
| `HashTable.FindIffKey` | src/types.c:170-189 | in an ordered bucket a descent finds exactly the keys of the bucket |
| `HashTable.FindInsert` | src/types.c:211-229 | hanging a node where the descent ended adds its key with NULL and changes no other answer |
| `HashTable.FindAssign` | src/types.c:258-271 | overwriting the value found changes the answer for that key only |
| `HashTable.InsertKeepsOrder` | src/types.c:211-229 | the bucket stays ordered and gains exactly that key and that node |
| `HashTable.AssignKeepsOrder` | src/types.c:258-271 | the bucket stays ordered with the same keys and nodes |
| `HashTable.NoSharing` | src/types.c:158-232 | an ordered bucket on the heap holds no node twice: its pointers form a tree |
| `HashTable.BucketsDisjoint` | src/types.c:158-232 | no node belongs to two buckets |
| `HashTable.RowHoldsItsKeys` | src/types.c:143-232 | each row of a sound table is an ordered tree of exactly the keys of the map that hash to it |
| `HashTable.LinkInsert` | src/types.c:225-227 | a store through the pointer to a child pointer turns the heap into that of the bucket with the new key |
| `HashTable.LinkAssign` | src/types.c:258-271 | a store into the node found turns the heap into that of the bucket with the new value |
| `HashTable.CountPostOrder` | src/types.c:300-317 | the recursive tear-down visits every value as often as the bucket holds it |
| `HashTable.Table.constructor` | src/types.c:242-250 | a zeroed table is sound and stands for the empty map, with its callbacks fixed |
| `HashTable.Table.Descend` | src/types.c:167-190 | the loop stops at the node of the key, or with the address of the child slot the key belongs in |
| `HashTable.Table.Search` | src/types.c:158-209 | the node of a key present with its value, or the empty slot, or an unused root |
| `HashTable.Table.LinkNew` | src/types.c:214-227 | the new node is fresh and the heap is the old one with the node hung into the slot |
| `HashTable.Table.HangNode` | src/types.c:211-229 | the table stays sound and the map gains the key with NULL; nothing owned changes |
| `HashTable.Table.FillEmptyRoot` | src/types.c:191-204 | an unused root takes the key together with any value left in it |
| `HashTable.Table.GetOrAdd` | src/types.c:158-232 | NULL exactly when the key is absent and is not to be or cannot be added; otherwise the node of the key with its old value; without adding nothing changes |
| `HashTable.Table.SetValue` | src/types.c:265-270 | the map is updated at that key only, and ownership moves from the old value to the new |
| `HashTable.Table.Replace` | src/types.c:260-271 | the old value is released if it is not NULL and the table owns values; the copy of the new one takes its place |
| `HashTable.Table.Add` | src/types.c:234-282 | the whole new state: map, released and stored values, ownership; without memory for a new key nothing changes and the add fails |
| `HashTable.Table.AddBalanced` | src/types.c:234-282 | an add keeps stored values equal to released plus owned ones, as multisets |
| `HashTable.HashtableAdd` | src/types.c:234-282 | the whole new state for a NULL and for an existing table: result, contents, stored and released values, balance; the callbacks in force are those of the call that made the table; a new table is dropped again when its first key finds no memory or its first value cannot be copied |
| `HashTable.HashtableGet` | src/types.c:284-298 | the value in the map or NULL; a NULL table has no keys |
| `HashTable.Table.Get` | src/types.c:284-298 | the value in the map or NULL, changing nothing |
| `HashTable.Table.FreeNode` | src/types.c:300-317 | the values of a bucket are released in post-order |
| `HashTable.Table.FreeRow` | src/types.c:323-327 | a row is torn down exactly when its root has a key |
| `HashTable.Table.Free` | src/types.c:319-328 | the values of all buckets are released row by row in post-order, each as often as it is held |
| `HashTable.AddAll` | src/types.c:234-282 | a loop of calls starting from NULL ends in no table, or in a sound, balanced one, as the fold of the calls says, whatever memory and copies fail |
| `HashTable.RunIsLastAdded` | src/types.c:158-298 | after any run of calls from NULL there is a table exactly when some call could make a lasting one, its callbacks are those of the first such call, and each key answers with what the last call for it that took effect stored |
| `HashTable.AddAllThenGet` | src/types.c:158-298 | the same as seen through a lookup after the run |
| `HashTable.EnteredIsAll` | src/types.c:258-271 | once the first call has made a table and memory never runs out, every value enters as the first call's callback copies it, in the order of the calls |
| `HashTable.AddAllThenFree` | src/types.c:234-328 | over any run of calls from NULL and a tear-down, every value is released exactly as often as it entered, except one hidden under the empty key; copies with addresses of their own are released exactly once; without a free callback nothing is released |
| `HashTable.CopiesEnterOnce` | src/types.c:265-267 | a callback that never returns the same address twice makes each copy enter once |
| `HashTable.StashOnlyFromEmptyKey` | src/types.c:167-204 | nothing is kept back if no empty key was added or row 0 was opened |
| `HashTable.RowOfOneByte` | src/types.c:143-156 | a one-byte key lands in the row of its byte |
| `HashTable.HashIsIndexed` | src/types.c:149-155 | a further byte is mixed in after its position is added to it |
| `HashTable.HashesOfTwoBytes` | src/types.c:143-156 | the hashes of "ab" and "ba" are 2 and 0 |
| `HashTable.SomeKeyHasNoRow` | src/include/types.h:195-199 | the row count leaves some keys without a row |
| `Numbers.U64RoundTrip` | src/types.c:33-36 | unpadded decimals survive base-0 reading exactly below 2^64 |
| `Numbers.I64RoundTrip` | src/types.c:38-41 | signed decimals survive exactly within 64 bits, in base 0 and in base 10 |
| `Numbers.HexPrefixRoundTrip` | src/types.c:33-36 | base 0 reads a 0x prefix as hexadecimal, exactly below 2^64 |
| `Numbers.TwoDigitRoundTrip` | src/types.c:510-515 | two-digit decimals are kept except 08 and 09, which become 0 |
| `Numbers.HexOctetRoundTrip` | src/types.c:616 | two-digit hexadecimal octets survive base-16 reading |
| `NumberTexts.ReadNumeral` | src/types.c:33-41 | blanks, a sign, a prefix, leading zeros, digits of either case and text after them: in base 0, 10 and 16 the sign and the digits are what is read |
| `NumberTexts.UnsignedOfNumeral` | src/types.c:33-36 | the unsigned 64-bit result of any numeral: too large a number gives the largest, a minus sign wraps |
| `NumberTexts.SignedOfNumeral` | src/types.c:38-41 | the signed 64-bit result of any numeral stops at either end |
| `Values.ParseIpAddress` | src/types.c:559-594 | result and target after the loop over the octet tokens, including what a malformed text leaves |
| `NumberTexts.IpParts` | src/types.c:559-594 | an address text is accepted if and only if it has four parts; if not, the target keeps its value and is marked as having none |
| `Values.NextOctetIsClear` | src/types.c:576-581 | the bits the next octet is or-ed into are still zero, so or-ing is adding |
| `NumberTexts.OctetOfNumeral` | src/types.c:581 | an octet is the low eight bits of its numeral in any notation |
| `NumberTexts.IpOfFour` | src/types.c:573-586 | the octet of the first part is the highest |
| `NumberTexts.DottedQuad` | src/types.c:762-775 | the printed form of four octets names them in order |
| `Values.IpRoundTrip` | src/types.c:559-775 | parsing the printed form of any of the 2^32 addresses gives it back; the text fits 16 bytes |
| `Values.ParseMacAddress` | src/types.c:596-629 | result and target after the loop over the octet tokens, including malformed texts |
| `NumberTexts.MacParts` | src/types.c:596-629 | a MAC text is accepted if and only if it has six parts; if not, the target keeps its octets |
| `NumberTexts.MacOfNumerals` | src/types.c:610-622 | each octet is the low eight bits of its hexadecimal numeral, in digits of either case, with or without 0x |
| `Values.MacRoundTrip` | src/types.c:596-629 | two-digit hexadecimal octets joined by colons parse back for every address |
| `Values.ParseDatetime` | src/types.c:631-695 | result and target of the nested passes, including date fields stored before a malformed time |
| `NumberTexts.DatetimeParts` | src/types.c:631-695 | a date and a time are accepted if and only if both have three parts; a malformed time still leaves the date stored |
| `NumberTexts.DatetimeHalves` | src/types.c:639-692 | a text without exactly one T between two parts stores no field |
| `NumberTexts.DatetimeOfNumerals` | src/types.c:510-695 | each field is the low 32 bits of its base-0 numeral, taken as signed |
| `Values.DatetimeFields` | src/types.c:631-695 | a text of numeric fields is taken apart into exactly those six fields |
| `Values.DatetimeRoundTrip` | src/types.c:631-695 | unpadded fields come back as printed if and only if all six are below 2^31 |
| `Values.PaddedDatetimeRoundTrip` | src/types.c:510-695 | two-digit fields come back as printed if and only if none is printed as 08 or 09 |
| `Values.ParseTimespan` | src/types.c:703-724 | result and target of the three-token form; other forms leave the target alone |
| `NumberTexts.TimespanParts` | src/types.c:703-724 | an interval is stored if and only if it has three parts, and success is never reported |
| `Values.TimespanBound` | src/types.c:703-724 | for all h, m and s, h:m:s reads as 3600h + 60m + s seconds if and only if that is at most 2147 |
| `NumberTexts.TimespanOfNumerals` | src/types.c:712-717 | the same for decimals with any leading zeros, blanks and plus signs: 00:08:00 is 480 seconds |
| `NumberTexts.SecondsAreTruncated` | src/include/types.h:57-58 | whole seconds are counted towards zero |
| `Values.MicrosecondsRoundTrip` | src/types.c:744-760 | microseconds come back exactly within 64 bits |
| `NumberTexts.MicrosecondsOfNumeral` | src/types.c:744-760 | microseconds of any base-0 numeral, stopping at the ends of 64 bits |
| `Config.GetSetting` | src/config.c:374-386 | the first row with this name and parent |
| `Config.SettingAt` | src/config.c:103-140 | every row of the settings table is the one found under its name and parent |
| `ConfigTexts.LookupIsExact` | src/config.c:103-140 | five named variables and the collector at the top level, five named members in a collector, nothing under any other setting: each name leads to its own target |
| `ConfigLaws.GlobalIsNamed` | src/config.c:104-118 | the names of the variables |
| `ConfigLaws.FieldIsNamed` | src/config.c:120-137 | the names of the members of a collector |
| `Config.IsEmptyLine` | src/config.c:326-349 | the buffer is cut at the first comment, and the answer is whether only blanks precede it |
| `Config.Reader.AddCollectorTo` | src/config.c:296-324 | a usable collector goes to the front with its defaults, which are also left in the scratch collector |
| `ConfigTexts.ClosingBrace` | src/config.c:204-211 | a closing brace adds the open collector, completed, if and only if it has a host or an address |
| `Config.Reader.ParseInto` | src/config.c:227-236 | the second token is parsed into the scratch collector or the variable, as the parent says |
| `ConfigTexts.NamedVariable` | src/config.c:212-236 | at the top level the value goes to the variable of the name and nowhere else |
| `ConfigTexts.NamedMember` | src/config.c:212-236 | in a collector it goes to the member of the name and nowhere else |
| `Config.Reader.ReadToken` | src/config.c:198-242 | one turn of the token loop is one step of the state machine |
| `ConfigTexts.ExtraWordsAreIgnored` | src/config.c:227-240 | words after a name and its value do nothing |
| `ConfigTexts.UnknownNameIsIgnored` | src/config.c:212-236 | a name unknown where it stands makes its line idle |
| `ConfigTexts.TextAfterBrace` | src/config.c:200-211 | what follows a brace in its word is not read |
| `ConfigTexts.StrayBrace` | src/config.c:204-211 | a closing brace outside a collector adds nothing |
| `ConfigTexts.ForeignBrace` | src/config.c:200-203 | a brace after a setting that is no collector opens a block under that setting |
| `ConfigTexts.ForeignBlock` | src/config.c:200-236 | no name is known in such a block, and its closing brace closes what was open without adding a collector |
| `Config.Reader.ReadTokens` | src/config.c:192-245 | the token loop is the fold of the step over the tokens of the line |
| `Config.Reader.ReadLineBuffer` | src/config.c:184-249 | one line, from buffer to state |
| `Config.Fgets` | src/config.c:178-182 | one read delivers up to 4095 characters up to and including a line feed |
| `Config.Reader.ReadNext` | src/config.c:178-251 | one turn of the line loop, which ends the reading at a line without a line feed |
| `Config.Reader.Read` | src/config.c:166-263 | globals, collectors and the trace of memory accesses after the whole file |
| `ConfigLaws.EveryWriteIsProper` | src/config.c:192-243 | for every file each parser call goes to a member of a zeroed scratch collector or to the variable of a top-level row, and only a zeroed scratch collector is added |
| `ConfigLaws.LineActs` | src/config.c:184-245 | a line acts through its words, and then, if its end is bare, through the empty value its last word is given |
| `ConfigLaws.EmptyValue` | src/config.c:227-236 | the empty value changes the variables exactly for string settings not yet empty and a dscp not yet 0 |
| `ConfigLaws.LineIsItsWords` | src/config.c:184-245 | in the variables of the program a line acts through its words alone if and only if no trailing blanks hand the empty value to a setting it changes |
| `ConfigLaws.VariablesDecideRest` | src/config.c:166-263 | what the rest of a file does to the variables depends on nothing but the variables |
| `ConfigLaws.LayoutIsImmaterial` | src/config.c:178-251 | files are read alike when, blank and comment-only lines apart, their lines carry the same words one by one; only a line ending in a setting without a value must also end alike |
| `ConfigLaws.LayoutOfTexts` | src/config.c:178-251 | the same for whole files whose lines fit the buffer |
| `ConfigLaws.CommentIsNoWord` | src/config.c:326-349 | a comment appended to a line, with or without blanks, leaves its words |
| `ConfigTexts.SpacedWords` | src/config.c:184-191 | words between any spaces, tabs, returns and line feeds, before a comment or not, are the words of the line |
| `ConfigTexts.SkippedLine` | src/config.c:326-349 | a line is skipped if and only if only those characters stand before its end or its comment |
| `ConfigLaws.BlankLineIsImmaterial` | src/config.c:326-349 | a blank or comment-only line inserted anywhere in any file leaves the state |
| `ConfigLaws.BlankLineInText` | src/config.c:178-251 | the same for whole files whose lines fit the buffer |
| `ConfigLaws.CommentIsImmaterial` | src/config.c:326-349 | a comment appended to any line but one ending in a setting without a value leaves the state, whatever the other lines are |
| `ConfigLaws.CommentInText` | src/config.c:178-251 | the same for whole files whose lines fit the buffer |
| `ConfigLaws.TrailingBlanksCanMatter` | src/config.c:184-245 | the concrete family of lines for which layout does matter |
| `ConfigLaws.ReadTextIsReadLines` | src/config.c:178-182 | reading a text made of lines that fit the buffer is reading those lines |
| `ConfigLaws.TailIsDropped` | src/config.c:178-182 | a last line without a line feed, and everything from a line too long for the buffer on, is not read |
| `ConfigLaws.TextDivides` | src/config.c:178-182 | every file is a run of lines that fit the buffer and such a rest, and the reader reads exactly those lines |
| `ConfigLaws.ReadConfigWords` | src/config.c:192-243 | the words of any list of scalars and collector blocks are read as what they mean |
| `ConfigLaws.ReadBack` | src/config.c:166-263 | any file carrying those words, in any layout that fits the buffer, is read as what they mean, whatever the scratch collector held |
| `ConfigLaws.PrintThenRead` | src/config.c:166-263 | printing a configuration and reading it yields what it means |
| `ConfigLaws.LastScalarWins` | src/config.c:103-118 | for each scalar the last assignment wins |
| `ConfigLaws.LastIntervalWins` | src/config.c:117-118 | the last export interval of the form h:m:s wins, and others change nothing |
| `ConfigLaws.CollectorsAreReversed` | src/config.c:296-324 | the usable blocks come out in reverse file order before the collectors already there |
| `ConfigTexts.BlockIsRead` | src/config.c:192-243 | a printed block becomes one more collector, as described and completed, if and only if it has a host or its last address has four parts; otherwise the list stays |
| `ConfigTexts.BlockWithAddress` | src/config.c:296-301 | a host or a printed address given last is enough, and a block with neither kind of member is not |
| `ConfigLaws.LastMemberWins` | src/config.c:120-137 | within a block the last value of a member wins; port 4739 and UDP are filled in |
| `ConfigLaws.LastAddressAndTransport` | src/config.c:120-137 | an address or transport last given in printed form is the one read |
| `ConfigLaws.TransportRoundTrip` | src/config.c:351-372 | each transport is read back from its name and any other text changes nothing |
| `DataList.List.constructor` | src/data.c:29-52 | a node becomes a one-element list |
| `DataList.List.Append` | src/data.c:29-52 | the node is linked at the tail and the nodes before it stay |
| `DataList.AddCopy` | src/data.c:54-66 | a copy of the record is appended; a NULL list makes a new one |
| `DataList.List.Free` | src/data.c:68-81 | every node is released exactly once, in order |
| `DataList.LinksAgree` | src/data.c:29-52 | walking next from head, or prev from tail, visits the contents in order, or in reverse, and then ends |
| `Import.GetItem` | src/import.c:495-507 | the first row with this name |
| `Import.ImportItem` | src/import.c:166-204 | one item: divided at its first colon, trimmed, looked up, parsed into its own member |
| `ImportTexts.SpacedItem` | src/import.c:168-203 | however an item is spaced, and with name and value quoted or not, its value goes to the member of its name |
| `ImportTexts.ItemWithoutSides` | src/import.c:168-203 | an item without a colon, or with nothing on one side of its first colon, does nothing |
| `ImportTexts.NumberItems` | src/import.c:80-104 | number items keep the low 16, 32, 8 or 64 bits of a numeral in any notation |
| `ImportTexts.VxlanItem` | src/import.c:427-439 | a VXLAN identifier is the number given with the bit of its type set |
| `ImportTexts.MicrosecondItems` | src/import.c:98-102 | durations and latencies are microseconds in any notation |
| `ImportTexts.StateItems` | src/import.c:441-465 | the four connection states with a flag, and no other |
| `Import.ImportItems` | src/import.c:163-207 | a zeroed record with the items applied in order |
| `Import.ImportRecord` | src/import.c:157-216 | a record text appends its record; one without items appends nothing |
| `ImportTexts.BlankRecord` | src/import.c:157-213 | blanks before the first brace of an array are imported as a record without values |
| `ImportTexts.BlanksAfterRecord` | src/import.c:157-213 | blanks after the comma behind a record leave its closing quote and brace in its last value |
| `Import.ImportRecords` | src/import.c:150-219 | the records of a data token are appended in order |
| `Import.ImportToken` | src/import.c:143-226 | a token that trims to data consumes the next one and delivers its records; any other delivers nothing |
| `Import.Import` | src/import.c:137-244 | the list holds the records of the whole text |
| `ImportTexts.NamesDataIff` | src/import.c:144-148 | an array is taken for data if and only if the text before it is the word data between braces, blanks, quotes and colons |
| `ImportTexts.ImportOfArrays` | src/import.c:137-228 | of any number of arrays those titled data deliver their records, one after the other |
| `ImportLaws.ItemRoundTrip` | src/import.c:168-203 | a printed item comes apart into its name and value, even if the value contains colons |
| `ImportLaws.RecordRoundTrip` | src/import.c:157-213 | a printed record text yields one record, its items applied in order |
| `ImportLaws.TextRoundTrip` | src/import.c:137-228 | a printed document imports record by record, in order, as what its items mean |
| `ImportLaws.NameFinds` | src/import.c:80-104 | every member is found under its name, though one row is listed twice |
| `RecordLaws.ParsesCommute` | src/import.c:80-104 | parsers of different members commute |
| `RecordLaws.OrderIsImmaterial` | src/import.c:192-198 | permuting names and values, no known name twice, leaves the record they fill |
| `RecordLaws.ItemsArePairs` | src/import.c:164-207 | the item loop does what the names and values its item texts yield say, however they are spaced and quoted |
| `RecordLaws.OrderOfItems` | src/import.c:164-207 | item texts that yield a permutation of the same names and values, no known name twice, fill a record alike |
| `RecordLaws.PermutedItems` | src/import.c:164-207 | in particular permuted item texts do |
| `RecordLaws.UnknownIsImmaterial` | src/import.c:192-202 | a name that is not in the table can be inserted anywhere with any value |
| `RecordLaws.UnknownItem` | src/import.c:164-207 | an item text with an unknown name, without a colon, or with nothing on one side of it can be inserted anywhere |
| `RecordLaws.KnownIffListed` | src/import.c:495-507 | a name is found if and only if the table lists it |
| `RecordLaws.RecordsAlike` | src/import.c:150-219 | record texts that yield the same known names and values in whatever order, none twice, import as the same records |
| `RecordLaws.ValueRoundTrip` | src/import.c:80-104 | a printed value parsed into any record makes that member the printed record's |
| `RecordLaws.RecordRoundTripInOrder` | src/import.c:164-207 | the items of a record in any order make up the record again |
| `RecordLaws.ImportInvertsPrint` | src/import.c:137-228 | any list of records within their field widths is imported from its printed form unchanged and in order |
| `Export.Collector.Export` | src/export.c:323-413 | one normally returning call: the records delivered, both counters in 64 bits, and the statistics record |
| `Export.DeliveredCount` | src/export.c:366-372 | as many records are delivered as appends succeeded |
| `Export.CountersConserve` | src/export.c:396-401 | after any run of calls the counters hold the number of calls and of all successful appends |
| `Export.ExportAll` | src/export.c:323-413 | the k-th statistics record carries k and the successful appends of calls 1 to k |
| `Calendar.GmtimeDenotes` | src/types.c:810-814 | broken-down fields are in range and denote the time they came from |
| `CalendarDays.MonthsBegin` | src/types.c:810-814 | the first of each month is 0, 31, 59, ... 334 days after 1 January, and one more after February in leap years |
| `CalendarDays.YearsBegin` | src/types.c:810-814 | years have 365 days, and 366 if divisible by 4 and not by 100, or by 400 |
| `CalendarDays.DaysPass` | src/types.c:810-814 | 86400 seconds later it is the next day, with the month ends written out |
| `CalendarDays.ClockTicks` | src/types.c:810-814 | time 0 is the start of 1970 and each second the clock ticks, which determines the fields of every time |
| `CalendarDays.FieldsCarry` | src/types.c:793-800 | seconds, minutes, hours and months out of range carry into the next larger unit |
| `Calendar.GmtimeIsInverse` | src/types.c:810-814 | fields in range are determined by the time they denote |
| `Calendar.CtimeRoundTrip` | src/types.c:793-822 | a time survives the way to a date-time and back, and the stored offset turns the local fields into UTC |
| `Calendar.DatetimeCtimeRoundTrip` | src/types.c:793-822 | fields in range survive the way to a time and back |
| `Calendar.AddTimespanMoves` | src/types.c:824-838 | the result is the old time plus the truncated seconds if and only if the seconds member can hold the sum; the new fields are in range, denote it, and the offset is kept |
| `Calendar.AddThenSubtract` | src/types.c:824-838 | adding a span and then its opposite leads back to the same time |
| `Calendar.ExportedSecondsAreLocal` | src/types.c:777-791 | the 32-bit seconds since 1970 of a converted time are the time plus the zone's offset when that fits, and the time itself if and only if there is no offset and it fits |

## Left out

- HashTable.HashtableAdd: keys that hash to 255 and keys longer than an int can measure are excluded, because the table has no row for the former and the comparison truncates the latter.
- HashTable.Table.Free: memory of keys and nodes is not tracked, only the values handed to the free callback; the table structure itself is never freed by the program. What the copy callback returns in each call is an input, as is whether memory can be had.
- Strings.StringSplit: characters are 1 to 127, because a plain char indexes the membership table.
- Values.ParseIpAddress: the or of the octets is written as addition, which `Values.NextOctetIsClear` justifies.
- Values.ParseTimespan: an int that overflows is taken to wrap around, and long is taken to have 64 bits.
- Config.Reader.Read: opening the file is left out; the reader starts from its contents.
- Config.Reader.AddCollectorTo: the key and context members of a collector, which the reader does not touch, are left out.
- Import.Import: reading the file and growing the buffer are left out; the importer starts from the terminated text. It trims its tokens and replaces the first colon in place; the model does this on values, and walks each token list once to obtain its sequence.
- Export.Collector.Export: the library session, templates and the conversion of a record into the export layout are left out; appending a record is a step that succeeds or fails, and only calls that return normally are modelled.
- Calendar.ExportedSecondsAreLocal: seconds that do not fit 32 bits have no value in the model, because the language leaves the conversion from floating point undefined there.
- Calendar.CtimeRoundTrip: daylight saving and the time zone database are left out, and so are times mktime cannot represent; the zone has one fixed offset.
- Allocation failure outside the hash table: taken not to happen.
- Ownership of the strings of repeated settings, and nvipfix_config_cleanup: bookkeeping without a clean statement for malformed files.
- nvipfix_parse_timespan_milliseconds, nvipfix_string_contains_only and the time span getters: one-step variants of what is modelled.
- Import from a live switch, the daemon, the command line, logging and file watching: foreign libraries and process plumbing.
