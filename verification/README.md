# Verified model of the Nagios-to-AMQP event broker

The repository is a Nagios module that turns check results into JSON messages and sends them to an
AMQP broker, keeping them in a queue while the broker cannot be reached.  It bundles the AMQP client
library and the JSON library it uses.  This project models the four stateful parts of that code and
proves what they promise.

* **AMQP wire protocol** (AMQP 0-9-1, sections 4.2.3, 4.2.5 and 4.2.6).  `TableCodec` encodes and
  decodes nested field tables with back-patched lengths.  `MethodCodec` is the code generator for method
  arguments, with its packing of bits into octets.  `FrameReader` is the incremental frame reader and
  `Content` the cutting and reassembly of message bodies.  `FrameQueue` parks frames that arrive during a
  synchronous call.  `Pool` is the page-pool allocator and `Receiver` the condition under which a channel's
  memory may be recycled.
* **JSON library** (RFC 4627, RFC 3629).  `HashTable` keeps all buckets in one circular list.
  `JsonContainers` are the growing array and the object that numbers its keys.  `JsonNumbers` is the grammar of
  numbers.  `Utf8`, `JsonStrings`, `JsonPrinter` and `JsonGraph` write values, `JsonReader`, `JsonLexer` and
  `JsonParser` read them, `JsonRoundTrip`, `JsonSoundness` and `JsonFidelity` compare the two directions, and
  `JsonEquality` compares values.  `JsonGrammar` is the grammar with its meaning, octet by octet; `JsonReading`
  compares the reader with it, and `JsonLayout` the writer.  A real is a double, given by its bits; the text the C
  library writes for one and the number it converts a text to are parameters.
* **Store and forward.**  `Fifo` is the bounded doubly linked queue, `StoreForward` the protocol over it.
* **Long output.**  `Splitter` cuts texts into messages and follows each message to its JSON text.

`Wrappers` and `Bytes` hold what the others share.

Code that updates state in place is modelled by classes and methods with loops, each proved equal to a
function on values; the promises are lemmas about these functions, over all inputs and over all runs.
The broker's answers, the clock and the incoming octets are arbitrary inputs.

Main results:

* The hash table refines a finite map, over every run of its operations: the list is always a concatenation of
  bucket segments.
* The JSON reader decides the grammar of RFC 4627: a text is loaded as a value if and only if it spells that value
  between blanks.  It deviates from the grammar only in that any letter is a digit of an escape, that escapes of the
  code point 0 and of half a surrogate pair are refused, that integers have 64 bits, and that reals have to be
  convertible.  Duplicate names are refused on request, and anything may follow if the check of the end is disabled.
* The text of a document with valid keys and finite reals is, octet by octet, the layout of its value, and denotes the
  value by the grammar if its reals return.
* Printing a value and parsing the text gives the value back, under every combination of flags, exactly when all its
  keys are valid UTF-8 and every real comes back from the text the C library writes for it.  Whatever is parsed from
  any text can be printed, and is parsed again as the same value exactly under the condition on reals.  Writing a heap
  graph fails exactly when a cycle or an invalid string can be reached.
* A field table is decoded to what was encoded exactly when every key's length fits its length octet; the
  octets of each kind of field are stated one by one.
* The frames read depend on the octets of the stream only, not on how it is cut into reads, up to the first content
  header that is shorter than its fixed part.  Of such a header, and of no other, the reader takes octets that lie
  behind the frame.  A method number cut short may run on behind its frame, too, but is rejected whatever lies there.
* No recycling of memory touches anything the receive side still uses, and no two of its users share memory, in any
  run.  Parking a frame is safe exactly when it has not been given up.
* Every frame taken from the stream ends in exactly one place, in order, in every run in which no wait for a
  channel skips parked frames and only the frame handed out last is put back.  Over every run at all, the frames lost
  are exactly those that waits for a channel skip, and those added exactly the others that are put back.
* A synchronous call returns the first reply that can be read, and parks what comes before it; so does every wait.
* Events are lost only by dropping the oldest from a full queue; published events keep their order.  A connection is
  attempted exactly when one is due, and a due flush publishes as many of the oldest events as the broker takes.
* The three texts of a split check result arrive whole exactly when the rest of the event can be written, its reals
  can be converted, and each text is valid UTF-8, quotient and remainder of its length leave room, and no chunk starts
  inside a character.  An invalid last chunk of the first text stays in the event and empties every message after it.

Where the code and its surroundings disagree, the model follows the code:

* The length octet of a table key is the length modulo 256 (`TableCodec.LongKeyIsLost`).
* Waiting for a frame of one channel unlinks every parked frame before the one it finds
  (`FrameQueue.WaitOnLoses`).
* The test for hexadecimal digits accepts every character, so that `\u` always takes four characters; one that
  is no letter or digit stops the program, and letters beyond F have values (`JsonReader.LettersAreDigits`).  The
  reader agrees with a strict one exactly when the characters are hexadecimal digits or the string is refused anyway
  (`JsonReader.HexDecides`).
* Splitting can lose the end of a text that a further message would have carried (`Splitter.TwoMessagesTooFew`), and
  a cut inside a character loses its message and may lose all later ones (`Splitter.CutCharacterLosesAll`).
* A content header without its fixed part is decoded all the same, from whatever follows it in memory
  (`FrameReader.ShortHeaderGoesAstray`).
* An object key that is not valid UTF-8 is written up to the bad octet, and writing goes on (`JsonGraph.DumpMember`).
  The text may be read as another value: an object with the keys FF and FE for the values 1 and 2 is written as
  `{": 1, ": 2}`, the text of an object with one key (`JsonFidelity.BadKeysReadAsAnother`).
* The number 2^-1074, written out in full, is loaded, but the text with 17 digits that is written for it is refused
  with a range error (`JsonFidelity.DenormalIsLost`).  Infinities and NaNs are written by name, and no reader takes
  the names (`JsonFidelity.NoNumberIsLost`).

## Model

| member | source | states |
|---|---|---|
| Bytes.BigEndianRoundTrip | lib/librabbitmq/amqp_private.h:192-243 | a word written in network order and read back is the value reduced to the word's width |
| Bytes.BigEndianAt | lib/librabbitmq/amqp_private.h:192-243 | the octets of a word come most significant first |
| HashTable.ComputeHash | lib/jansson-2.3.1/src/hashtable.c:21-35 | the loop computes the hash of a key, sign extension and wrap-around of the machine word included |
| HashTable.HashMeans | lib/jansson-2.3.1/src/hashtable.c:21-35 | from 5381 on, each octet is added as a signed character to 33 times the hash, modulo 2^64 |
| HashTable.InsertKeepsSegments | lib/jansson-2.3.1/src/hashtable.c:62-75 | inserting at the start of a bucket's segment, or at the end of the list for an empty bucket, leaves the list a concatenation of one contiguous segment per bucket |
| HashTable.RemoveKeepsSegments | lib/jansson-2.3.1/src/hashtable.c:116-146 | removing any pair leaves it one |
| HashTable.InsertDelimits | lib/jansson-2.3.1/src/hashtable.c:62-75 | after an insertion first and last of every bucket point at the ends of its segment, or at the sentinel when it is empty |
| HashTable.RemoveDelimits | lib/jansson-2.3.1/src/hashtable.c:127-138 | the same after a removal, for each of the four cases of where the pair stands in its segment |
| HashTable.ListInsert | lib/jansson-2.3.1/src/hashtable.c:43-49 | linking a node before another inserts it at that position of the circular list and changes no other link |
| HashTable.ListRemove | lib/jansson-2.3.1/src/hashtable.c:51-55 | unlinking a node takes exactly it out of the circular list |
| HashTable.HashTable.constructor | lib/jansson-2.3.1/src/hashtable.c:197-216 | a new table is valid and empty |
| HashTable.HashTable.FindPair | lib/jansson-2.3.1/src/hashtable.c:90-113 | walking a bucket from first to last finds the pair with the key and its position, or there is none in the whole table |
| HashTable.HashTable.InsertToBucket | lib/jansson-2.3.1/src/hashtable.c:62-75 | the node joins its bucket and the list keeps its shape |
| HashTable.HashTable.Rehash | lib/jansson-2.3.1/src/hashtable.c:162-194 | moving every pair into more buckets changes no key, value or serial number |
| HashTable.HashTable.Set | lib/jansson-2.3.1/src/hashtable.c:224-267 | set is map update; a key already present keeps its serial number; there are never more pairs than buckets; the bucket arrays are the old ones or new ones |
| HashTable.HashTable.Get | lib/jansson-2.3.1/src/hashtable.c:269-283 | get is map lookup |
| HashTable.HashTable.Del | lib/jansson-2.3.1/src/hashtable.c:285-289 | del is removal from the map, and its status says whether the key was present; the bucket arrays stay |
| HashTable.HashTable.Clear | lib/jansson-2.3.1/src/hashtable.c:291-305 | clear leaves the empty map; the bucket arrays stay |
| HashTable.HashTable.Iterate | lib/jansson-2.3.1/src/hashtable.c:307-334 | one pass of the iterator visits every key exactly once, with its value |
| HashTable.HashTable.Perform | lib/jansson-2.3.1/src/hashtable.c:224-305 | after any run of set, del and clear the table stores what the run makes of a map |
| JsonContainers.JsonArray.Grow | lib/jansson-2.3.1/src/value.c:397-424 | growing makes room, keeps the values, and at least doubles the table |
| JsonContainers.JsonArray.Append | lib/jansson-2.3.1/src/value.c:426-449 | append adds the value at the end, unless it is the array itself |
| JsonContainers.JsonArray.Insert | lib/jansson-2.3.1/src/value.c:451-489 | insert puts the value at the index and moves the rest up, from the old table or in place; past the end, or for the array itself, it fails and changes nothing |
| JsonContainers.JsonObject.SetNoCheck | lib/jansson-2.3.1/src/value.c:76-97 | a new key gets the next serial number and comes last; an existing one keeps number and place; the object itself is refused |
| JsonContainers.JsonObject.Set | lib/jansson-2.3.1/src/value.c:99-108 | the same for valid UTF-8 keys; any other is refused without a change |
| JsonContainers.JsonObject.Get | lib/jansson-2.3.1/src/value.c:65-74 | the value stored under the key |
| JsonContainers.JsonObject.Del | lib/jansson-2.3.1/src/value.c:110-119 | removes the key from the map and from the order |
| JsonContainers.JsonObject.Clear | lib/jansson-2.3.1/src/value.c:121-134 | empties the object and restarts the numbering |
| JsonContainers.RemovedInOrder | lib/jansson-2.3.1/src/value.c:110-119 | after a removal the serial numbers still list the keys in the order of their first insertion |
| JsonContainers.SerialsGiveInsertionOrder | lib/jansson-2.3.1/src/dump.c:158-164 | sorting members by serial number yields the keys in the order in which they were first inserted |
| Utf8.EncodeInto | lib/jansson-2.3.1/src/utf.c:11-45 | writes the UTF-8 octets of a code point up to 0x10FFFF and refuses every other number |
| Utf8.Examples | lib/jansson-2.3.1/src/utf.c:11-45 | the octet sequences of the examples in RFC 3629 |
| Utf8.CheckFullAt | lib/jansson-2.3.1/src/utf.c:83-137 | the loop accepts a sequence exactly when it has continuation octets, is in range, no surrogate and not overlong, and returns its code point |
| Utf8.EncodedIsAccepted | lib/jansson-2.3.1/src/utf.c:47-137 | the checks accept every encoded scalar value, find its length, and decode it to itself |
| Utf8.AcceptedIsEncoded | lib/jansson-2.3.1/src/utf.c:47-137 | whatever the checks accept is the encoding of the scalar value they return |
| Utf8.IterateEncoded | lib/jansson-2.3.1/src/utf.c:139-163 | iterating over an encoded code point returns it and its length |
| Utf8.ValidIsEncoded | lib/jansson-2.3.1/src/utf.c:165-190 | a string that is accepted is the concatenation of the encodings of the code points read from it |
| Utf8.EncodedIsValid | lib/jansson-2.3.1/src/utf.c:165-190 | every concatenation of encoded scalar values is accepted and read as these |
| Utf8.CheckString | lib/jansson-2.3.1/src/utf.c:165-190 | the loop accepts exactly the valid strings |
| JsonStrings.HexRoundTrip | lib/jansson-2.3.1/src/load.c:268-289 | four digits written for a number below 65536 are read as that number |
| JsonStrings.PlainRun | lib/jansson-2.3.1/src/dump.c:80-95 | the inner loop passes exactly the characters that need no escape, and stops at the first that does or is invalid |
| JsonStrings.DumpString | lib/jansson-2.3.1/src/dump.c:65-150 | writing succeeds exactly on valid UTF-8 and then writes the escaped text between quotes; on any other string it leaves the text up to the last escape before the bad octet |
| JsonStrings.BadKeyIsCut | lib/jansson-2.3.1/src/dump.c:74-103 | of the octets 61 0A 62 FF a quotation mark, the first character and the escape of the second are left in the text |
| JsonStrings.PairIsRead | lib/jansson-2.3.1/src/load.c:376-395 | the surrogate pair written for a code point beyond the basic plane is read as that code point |
| JsonStrings.WrittenIsRead | lib/jansson-2.3.1/src/dump.c:105-141 | whatever is written for a code point, plain or escaped, is scanned to its end and read as that code point |
| JsonStrings.EscapedIsRead | lib/jansson-2.3.1/src/load.c:291-444 | reading undoes writing for every valid string without a terminator, in plain and in ASCII mode, and finds the closing quote |
| JsonStrings.EscapedIsText | lib/jansson-2.3.1/src/dump.c:65-150 | what is written for a string, up to its end or its first bad octet, is valid UTF-8, and in ASCII mode nothing but ASCII |
| JsonStrings.FlushedIsText | lib/jansson-2.3.1/src/dump.c:65-150 | so is what is left in the text when an invalid octet ends the writing |
| JsonStrings.StrictMeans | lib/jansson-2.3.1/src/load.c:39-40 | a reader that takes nothing but hexadecimal digits after `\u` finds the same end of a string, and finds one exactly where all those characters are such digits |
| JsonPrinter.SortSorts | lib/jansson-2.3.1/src/dump.c:293-319 | members with different keys and serial numbers are put in strictly ascending order, by key or by number, each once |
| JsonPrinter.KeyOrderTotal | lib/jansson-2.3.1/src/dump.c:152-156 | of two different keys exactly one comes first |
| JsonPrinter.KeyOrderTransitive | lib/jansson-2.3.1/src/dump.c:152-156 | the order of keys is transitive |
| JsonPrinter.KeyOrderMeans | lib/jansson-2.3.1/src/dump.c:152-156 | a key comes before another when its first octet that differs is smaller, or when it is a proper prefix |
| JsonPrinter.OrderMeans | lib/jansson-2.3.1/src/dump.c:293-327 | with JSON_SORT_KEYS members ascend by key, else with JSON_PRESERVE_ORDER by serial number, else they are as the hash table has them |
| JsonGraph.DumpIndent | lib/jansson-2.3.1/src/dump.c:43-63 | the loop writes a new line and the indentation for the depth, or a space, or nothing |
| JsonGraph.DumpValue | lib/jansson-2.3.1/src/dump.c:166-401 | on any graph the walk ends, and appends the text of the unfolded tree or fails when there is none; a success restores all visited marks, and after a failure only containers above the value may be marked |
| JsonGraph.DumpArray | lib/jansson-2.3.1/src/dump.c:211-258 | the same for an array: marked, written element by element, and unmarked; a marked one is unmarked and refused |
| JsonGraph.DumpObject | lib/jansson-2.3.1/src/dump.c:260-395 | the same for an object, in iteration order or sorted by key or serial number |
| JsonGraph.DumpMembers | lib/jansson-2.3.1/src/dump.c:321-387 | the loop over members writes keys, separators, values, commas and breaks in the given order |
| JsonGraph.DumpMember | lib/jansson-2.3.1/src/dump.c:325-337 | a member is its key, as far as that can be written, the separator and its value; only the value can fail |
| JsonGraph.OrderUnfolds | lib/jansson-2.3.1/src/dump.c:293-327 | sorting the members on the heap, each together with its value, gives the sorted members of the tree |
| JsonGraph.UnfoldsUnlessStuck | lib/jansson-2.3.1/src/dump.c:205-221 | a value unfolds exactly when no way from it through the graph repeats a container or ends at an invalid string; sharing alone does no harm |
| JsonGraph.UnfoldPrintable | lib/jansson-2.3.1/src/dump.c:166-401 | what a graph unfolds to is a tree of C strings and integers in range, with different keys in each object and no invalid string |
| JsonGraph.UnfoldShape | lib/jansson-2.3.1/src/dump.c:166-260 | each kind of value unfolds to a tree of its own kind, element by element and member by member |
| JsonGraph.DumpDocument | lib/jansson-2.3.1/src/dump.c:439-447 | writing succeeds exactly for a container, or any value on request, from which neither a cycle nor an invalid string can be reached; all marks are clear afterwards; what is written denotes the value by the grammar, and is read back as it, exactly when all keys below the root are valid, every real comes back from its text, and the reader takes bare values where it is one; with valid keys and finite reals the text is the layout of the value |
| JsonLexer.Lexer.Fill | lib/jansson-2.3.1/src/load.c:149-181 | the buffer gets exactly the next valid UTF-8 sequence; the end and an invalid octet are told apart |
| JsonLexer.Lexer.Get | lib/jansson-2.3.1/src/load.c:142-203 | octet by octet the stream yields the text up to its first invalid sequence, then its end or an error |
| JsonLexer.Lexer.Unget | lib/jansson-2.3.1/src/load.c:205-221 | the octet read last is read again |
| JsonLexer.Lexer.ScanRaw | lib/jansson-2.3.1/src/load.c:301-344 | the first pass over a string stops at its closing quote, or fails on a control character, a wrong escape or the end |
| JsonLexer.Lexer.UnescapeSaved | lib/jansson-2.3.1/src/load.c:359-440 | the second pass never looks beyond the closing quote and replaces every escape, surrogate pairs included, or fails as the code does |
| JsonLexer.Lexer.ScanNumeral | lib/jansson-2.3.1/src/load.c:452-545 | reads a number as far as its grammar goes, as an integer in range or the double the C library converts it to; leading zeros, missing digits and range errors fail |
| JsonLexer.Lexer.ScanReal | lib/jansson-2.3.1/src/load.c:504-532 | reads fraction and exponent to their ends or fails |
| JsonLexer.Lexer.ScanIdentifier | lib/jansson-2.3.1/src/load.c:585-604 | takes the whole run of letters and knows three words |
| JsonLexer.Lexer.Next | lib/jansson-2.3.1/src/load.c:547-615 | the lexer returns the token that the text starts with, after blanks, and leaves the stream right after it |
| JsonParser.ParseValueAt | lib/jansson-2.3.1/src/load.c:763-816 | the recursive parser returns the value the grammar function gives for the token and the text, and stops where it ends |
| JsonParser.ParseArray | lib/jansson-2.3.1/src/load.c:723-761 | the same for the loop over array elements |
| JsonParser.ParseObject | lib/jansson-2.3.1/src/load.c:650-721 | the same for the loop over members, with duplicate keys refused or overwritten |
| JsonParser.ParseDocument | lib/jansson-2.3.1/src/load.c:818-890 | a text given as a string is read as a value exactly when it denotes that value by the grammar, nothing but blanks after it unless the check of the end is disabled, and a container unless bare values are allowed |
| JsonReader.Scan | lib/jansson-2.3.1/src/load.c:547-615 | every token but the end takes at least one character |
| JsonReader.ParseValue | lib/jansson-2.3.1/src/load.c:763-816 | parsing never gives characters back, on any text |
| JsonReader.HexDecides | lib/jansson-2.3.1/src/load.c:39-40 | a string is read as by a reader that takes nothing but hexadecimal digits after `\u` if and only if every such character is one or the string is refused for another reason; such digits never stop the program |
| JsonReader.LettersAreDigits | lib/jansson-2.3.1/src/load.c:268-289 | `\u00zz` is read as U+0253, and `\u` with four blanks stops the program |
| JsonReading.StringSound | lib/jansson-2.3.1/src/load.c:291-444 | whatever the two passes read as a string is spelled by characters and escapes of the grammar, and is what these mean |
| JsonReading.StringComplete | lib/jansson-2.3.1/src/load.c:291-444 | every such spelling is read to its closing quote, as what it means |
| JsonReading.NumberSound | lib/jansson-2.3.1/src/load.c:452-545 | every number token is spelled by the grammar and followed by nothing that could belong to it |
| JsonReading.NumberComplete | lib/jansson-2.3.1/src/load.c:452-545 | every number by the grammar, in range or convertible, is read whole |
| JsonReading.ParseSound | lib/jansson-2.3.1/src/load.c:650-816 | whatever is parsed, up to whatever rest, is spelled by the grammar after blanks and means the value parsed; names differ when duplicates are refused |
| JsonReading.ParseComplete | lib/jansson-2.3.1/src/load.c:650-816 | whatever the grammar spells is parsed as what it means, and the rest is left |
| JsonReading.LoadsDecides | lib/jansson-2.3.1/src/load.c:818-849 | a text is loaded as a value, up to a rest, if and only if it denotes the value by the grammar and goes on with that rest, which is blank unless the check of the end is disabled |
| JsonReading.EndIsChecked | lib/jansson-2.3.1/src/load.c:834-840 | with the check of the end, a document is loaded exactly when it is without it, nothing but blanks follows, and all the text is valid UTF-8; the value is the same |
| JsonRoundTrip.IntegerIsScanned | lib/jansson-2.3.1/src/load.c:452-502 | every integer of the integer type, written in decimal, is read as that integer |
| JsonRoundTrip.RealIsScanned | lib/jansson-2.3.1/src/load.c:504-545 | the text of a finite real is read whole, as the number the C library converts it to, or refused when that reports a range error; the names of infinities and NaNs are refused |
| JsonRoundTrip.OrderOk | lib/jansson-2.3.1/src/dump.c:293-319 | the order of members changes nothing about the object they denote |
| JsonRoundTrip.PrintIsParsed | lib/jansson-2.3.1/src/load.c:650-816 | a written value, followed by text that delimits it, is parsed as that value, its reals as what their texts are converted to, and leaves that text, at any depth and with any flags, or fails exactly when it holds a real that is refused |
| JsonRoundTrip.PrintIsText | lib/jansson-2.3.1/src/dump.c:166-401 | written documents are valid UTF-8 without a terminator, even when keys or strings in them are not valid |
| JsonRoundTrip.LoadsUndoesDumps | lib/jansson-2.3.1/src/load.c:818-849 | a document with valid strings and keys is loaded as the value it was written from, its reals as what their texts are converted to, for all flags of writer and reader, exactly when no real is refused; a bare value is refused exactly when the reader does not allow it |
| JsonSoundness.CutAtAscii | lib/jansson-2.3.1/src/load.c:142-203 | valid UTF-8 can be cut before and after any ASCII octet, which is why tokens end between code points |
| JsonSoundness.UnescapedIsText | lib/jansson-2.3.1/src/load.c:359-440 | a string read from valid text is valid UTF-8 without a terminator, whatever escapes it is made of |
| JsonSoundness.ScanIsSound | lib/jansson-2.3.1/src/load.c:547-615 | every token read from text is well formed and is followed by text |
| JsonSoundness.LoadedIsProper | lib/jansson-2.3.1/src/load.c:818-849 | whatever is loaded, from any text and with any flags, has valid strings and keys and integers in range at every depth |
| JsonFidelity.TripChangesNothing | lib/jansson-2.3.1/src/strconv.c:54-129 | writing and converting the reals of a tree leaves its value as it is if and only if each of them comes back as itself |
| JsonFidelity.ProperKeys | lib/jansson-2.3.1/src/dump.c:325-337 | a tree whose value could have been loaded has valid keys only |
| JsonFidelity.ReadsBack | lib/jansson-2.3.1/src/load.c:818-849 | a document that has been written, with any flags, is loaded as the value it was written from if and only if its keys are valid, every real comes back from its text, and the reader takes bare values where it is one |
| JsonFidelity.TreeStandsFor | lib/jansson-2.3.1/src/load.c:650-816 | every well-formed value is the value of a tree that can be written, reals included |
| JsonFidelity.LoadAgain | lib/jansson-2.3.1/src/load.c:818-849 | a value loaded from any text can be written with any flags, and is loaded again as the same value if and only if every real in it comes back from the text written for it |
| JsonFidelity.BadKeysReadAsAnother | lib/jansson-2.3.1/src/dump.c:325-337 | a written object whose text is that of another value |
| JsonFidelity.DenormalIsLost | lib/jansson-2.3.1/src/strconv.c:62-68 | a real that is loaded and written, but refused when it is loaded again |
| JsonFidelity.NoNumberIsLost | lib/jansson-2.3.1/src/strconv.c:76-102 | an array with an infinity or a NaN is written, and refused when it is loaded |
| JsonLayout.CharsAreLaid | lib/jansson-2.3.1/src/dump.c:65-150 | each character of a string is written as itself or as the one escape that the layout gives it, in lower-case hexadecimal |
| JsonLayout.PrintIsLaid | lib/jansson-2.3.1/src/dump.c:166-401 | the text of a tree with valid keys and finite reals is, blank by blank, the spelling of its layout: brackets, new lines, indentation, commas, colons and the order of members |
| JsonLayout.WrittenDenotes | lib/jansson-2.3.1/src/dump.c:403-447 | the text of a document denotes its value by the grammar if and only if its keys are valid, its reals return and the reader takes bare values where it is one |
| JsonLayout.WordsAreWritten | lib/jansson-2.3.1/src/dump.c:172-180 | `[true, false, null]` is written for these three values, and read as them |
| JsonLayout.RestIsRefused | lib/jansson-2.3.1/src/load.c:834-840 | `[]x` is refused, or read as an empty array when the check of the end is disabled |
| JsonLayout.NamesAreWritten | lib/jansson-2.3.1/src/strconv.c:76-102 | infinities and NaNs are written as `inf.0` and `nan.0`, after a minus if the sign bit is set |
| JsonEquality.SameKeys | lib/jansson-2.3.1/src/value.c:250-266 | equal sizes and a one-way lookup make the key sets equal |
| JsonEquality.Equal | lib/jansson-2.3.1/src/value.c:838-866 | two values compare equal exactly when they are the same at every depth, reals as numbers |
| JsonEquality.SameMeans | lib/jansson-2.3.1/src/value.c:838-866 | that is when they differ in the sign of zeros at most and hold no NaN |
| JsonNumbers.SomeDoubles | lib/jansson-2.3.1/src/value.c:766-769 | the two zeros are one number, infinities are not finite, and a NaN differs from itself |
| JsonEquality.EqualObjects | lib/jansson-2.3.1/src/value.c:250-266 | the one-way loop over the first object's keys decides whether two objects are the same |
| JsonEquality.EqualArrays | lib/jansson-2.3.1/src/value.c:548-568 | arrays are equal when their lengths and all their elements are |
| TableCodec.EncodeTable | lib/librabbitmq/amqp_table.c:313-348 | the buffer receives the table's octets with the body's length patched in before it; the status is exactly that of the first failure |
| TableCodec.EncodeArray | lib/librabbitmq/amqp_table.c:286-311 | the same for arrays |
| TableCodec.EncodeField | lib/librabbitmq/amqp_table.c:350-441 | the same for a field of any kind, nested ones included |
| TableCodec.FieldsOnTheWire | lib/librabbitmq/amqp_table.c:350-441 | the kind octet and the payload of each kind of field, octet by octet, with two's complement and network order |
| TableCodec.KindOctets | lib/librabbitmq/amqp.h:504-523 | the eighteen kind octets |
| TableCodec.ProductOnTheWire | lib/librabbitmq/amqp_socket.c:1166-1169 | the octets of a table with the first entry that every login sends |
| TableCodec.TableStatusOk | lib/librabbitmq/amqp_table.c:313-348 | encoding succeeds exactly when all kinds are known and the octets fit |
| TableCodec.DecodedTable | lib/librabbitmq/amqp_table.c:122-192 | on arbitrary octets a table that is decoded ends within the buffer, at or past its declared end, and takes at least two octets per entry |
| TableCodec.DecodedElements | lib/librabbitmq/amqp_table.c:62-120 | the elements of an array that is decoded take exactly the octets of their encoding, at least one octet per element |
| TableCodec.DecodedField | lib/librabbitmq/amqp_table.c:194-282 | the same for one field of any kind |
| TableCodec.FieldsFromTheWire | lib/librabbitmq/amqp_table.c:194-282 | what is decoded for each kind octet, from how many octets, and that any other octet is refused |
| TableCodec.DecodeTable | lib/librabbitmq/amqp_table.c:122-192 | the loop with its doubling entry array computes what the recursive reading of the octets says |
| TableCodec.DecodeArray | lib/librabbitmq/amqp_table.c:62-120 | the same for arrays |
| TableCodec.DecodeField | lib/librabbitmq/amqp_table.c:194-282 | the same for one field |
| TableCodec.ReadField | lib/librabbitmq/amqp_table.c:194-282 | a field's octets, anywhere in a buffer, are decoded to that field and to their end |
| TableCodec.TableRoundTrip | lib/librabbitmq/amqp_table.c:122-441 | an encoded table is decoded to itself, at the offset where it ends, if and only if every key at every depth has fewer than 256 octets |
| TableCodec.LongKeyIsLost | lib/librabbitmq/amqp_table.c:326-334 | a key of 256 octets is not read back |
| TableCodec.EncodeThenDecode | lib/librabbitmq/amqp_table.c:313-348 | the same round trip through a real buffer at any offset |
| MethodCodec.BitEncoder.EncodeBit | lib/librabbitmq/codegen.py:96-107 | a bit starts an octet when none is open and closes it when it is the eighth |
| MethodCodec.BitDecoder.DecodeBit | lib/librabbitmq/codegen.py:69-80 | a bit loads an octet when none is open |
| MethodCodec.GenEncodeMethodFields | lib/librabbitmq/codegen.py:83-107 | the encoder's code for a list of field types flushes bits before every other field and at the end |
| MethodCodec.GenDecodeMethodFields | lib/librabbitmq/codegen.py:58-80 | the decoder's code for the same list |
| MethodCodec.EncoderWritesWire | lib/librabbitmq/codegen.py:83-191 | running the generated encoder writes runs of up to eight bits as one octet and every other field in between, or fails when the room is too small |
| MethodCodec.MethodRoundTrip | lib/librabbitmq/codegen.py:58-191 | for every list of types the generated decoder returns the encoded fields and takes exactly their octets, if and only if every string's length fits its length field and every table round-trips |
| MethodCodec.DecodedIsRepresentable | lib/librabbitmq/codegen.py:58-80 | whatever the generated decoder returns could have been encoded |
| MethodCodec.BasicPublishCode | lib/librabbitmq/amqp_framing.c:1582-1596 | the generated code of one method, statement by statement |
| MethodCodec.ExchangeDeclareCode | lib/librabbitmq/amqp_framing.c:414-442 | the generated code of another, whose bits are followed by a table |
| MethodCodec.PublishOnTheWire | lib/librabbitmq/amqp_framing.c:1582-1596 | the octets of the arguments of basic.publish |
| MethodCodec.DeclareOnTheWire | lib/librabbitmq/amqp_framing.c:414-442 | the octets of the arguments of exchange.declare, five bits in one octet and the table after them |
| FrameReader.Connection.ConsumeData | lib/librabbitmq/amqp_connection.c:201-217 | copies as many octets as are there and still missing |
| FrameReader.Connection.FinishFrame | lib/librabbitmq/amqp_connection.c:309-372 | a complete frame is accepted, ignored, rejected or read past by its end marker, its type, the length of its payload and its decoder, and the reader is idle again when it is accepted or ignored |
| FrameReader.SizeMeans | lib/librabbitmq/amqp_connection.c:267-302 | a frame is eight octets longer than the payload its header announces |
| FrameReader.JudgeMeans | lib/librabbitmq/amqp_connection.c:305-372 | only a frame that ends in 0xCE is accepted or ignored; its type, its channel, the number of its method or class and the octets after that decide, each at its place |
| FrameReader.Connection.HandleInput | lib/librabbitmq/amqp_connection.c:219-381 | one call takes octets up to the end of the frame it completes, or all of them |
| FrameReader.Connection.ReadChunk | lib/librabbitmq/amqp_socket.c:525-541 | handing over a whole chunk, call by call, yields the frames of a one-shot parse and keeps the unfinished rest |
| FrameReader.Connection.ReadAll | lib/librabbitmq/amqp_socket.c:525-541 | handing over chunk after chunk yields the frames of a one-shot parse of all of them together |
| FrameReader.ShortMethodIsUnknown | lib/librabbitmq/amqp_connection.c:324-336 | a method frame without a whole method number is always rejected: the end marker makes it an unknown one, whatever lies behind the frame |
| FrameReader.ReadsBehindShortHeaders | lib/librabbitmq/amqp_connection.c:338-355 | class, body size and flags of a content header depend on the frame alone if and only if its payload has the twelve octets of its fixed part; otherwise the room for the flags wraps around and they are read behind the frame |
| FrameReader.ShortHeaderGoesAstray | lib/librabbitmq/amqp_connection.c:338-355 | a stream with such a header |
| FrameReader.ParseSplit | lib/librabbitmq/amqp_connection.c:219-381 | cutting a stream in two changes nothing up to the first error or short content header |
| FrameReader.CutsDoNotMatter | lib/librabbitmq/amqp_connection.c:219-381 | reading in any chunks equals parsing whole frames in one go, up to the first error or short content header |
| FrameReader.AnyTwoCuts | lib/librabbitmq/amqp_connection.c:219-381 | two ways of cutting the same stream yield the same frames and the same end |
| FrameReader.ReadBackStream | lib/librabbitmq/amqp_connection.c:435-520 | frames with their fixed parts, sent one after the other, are read back as they were sent |
| FrameReader.FrameOnTheWire | lib/librabbitmq/amqp_connection.c:435-520 | the octets of a frame: type, channel, length, payload and 0xCE |
| Content.FragmentsConcat | lib/librabbitmq/amqp_api.c:216-249 | the fragments of a body are not empty, not too long, and together are the body |
| Content.FragmentsMinimal | lib/librabbitmq/amqp_api.c:216-249 | no cutting into pieces of that size has fewer pieces |
| Content.SendFrame | lib/librabbitmq/amqp_connection.c:435-520 | the octets that go out are those of the frame, whether it goes through the outbound buffer or not; nothing goes out for a frame that does not fit or has an unknown type |
| Content.FitsMeans | lib/librabbitmq/amqp_connection.c:435-520 | method, header and heartbeat frames have to fit into the outbound buffer with eight octets around their payload; a body frame need not, and no other type can be sent |
| Content.BasicPublish | lib/librabbitmq/amqp_api.c:167-252 | publishing sends the method, the content header and the fragments as frames; if the header does not fit, the method has gone out alone |
| Content.PublishedFrames | lib/librabbitmq/amqp_api.c:167-252 | the frames of a message: 60.40 with the arguments, class 60 with the body's length and the properties, and the fragments |
| Content.ReadMessage | lib/librabbitmq/amqp_consumer.c:195-301 | the reassembly loop collects exactly what the header announces, or ends with the error the code gives |
| Content.ReceiveMeans | lib/librabbitmq/amqp_consumer.c:195-245 | a message starts with a content header, from whose octets 4 to 11 the size is taken; any other frame is put back, or closes |
| Content.CollectMeans | lib/librabbitmq/amqp_consumer.c:247-301 | body frames are collected until they have the size announced; a frame that closes, any other frame, too many octets and too few frames each end in their own way |
| Content.CollectFragments | lib/librabbitmq/amqp_consumer.c:257-289 | collecting the fragments of a body restores it and leaves later frames |
| Content.ReceivePublished | lib/librabbitmq/amqp_consumer.c:195-301 | the frames of a published message are received as its body, for every length and frame size |
| Content.PublishThenReceive | lib/librabbitmq/amqp_api.c:167-252 | cutting, framing, reading frames and reassembly compose to the identity |
| Pool.AmqpPool.Alloc | lib/librabbitmq/amqp_mem.c:125-171 | a piece is large enough, a multiple of eight octets, within its block, and overlaps nothing handed out since the last recycling |
| Pool.AmqpPool.OpenPage | lib/librabbitmq/amqp_mem.c:153-166 | recycled pages are used again before a new one is made, and the page taken holds nothing live |
| Pool.AmqpPool.Recycle | lib/librabbitmq/amqp_mem.c:88-94 | recycling keeps the pages, frees the large blocks and leaves nothing live |
| Pool.AmqpPool.UnusedPagesHoldNothing | lib/librabbitmq/amqp_mem.c:125-171 | no page from the next one on holds anything live |
| Pool.PoolTable.Get | lib/librabbitmq/amqp_mem.c:238-252 | walking the chain finds the channel's pool if there is one |
| Pool.PoolTable.GetOrCreate | lib/librabbitmq/amqp_mem.c:211-236 | a channel keeps its pool, a new channel gets an empty one of its own, and no two channels share one |
| Receiver.Memory.Start | lib/librabbitmq/amqp_connection.c:267-302 | the buffer of the frame being read comes from the pool of the channel in its header |
| Receiver.Memory.Finish | lib/librabbitmq/amqp_connection.c:305-372 | decoding takes more memory of the same channel; a frame that fails to decode leaves the reader where it is |
| Receiver.Memory.Park | lib/librabbitmq/amqp_socket.c:789-849 | link and copy of a parked frame are new memory of its channel, at the end of the queue or at its front; any frame can be parked, and safely so exactly when its own memory has not been recycled and nothing else uses it |
| Receiver.Memory.ParkHeld | lib/librabbitmq/amqp_socket.c:789-849 | parking a frame the caller holds is one of the steps, and safe |
| Receiver.ParkSafely | lib/librabbitmq/amqp_socket.c:789-849 | parking keeps memory in use safe if and only if the frame has not been given up |
| Receiver.Memory.Take | lib/librabbitmq/amqp_socket.c:858-873 | a parked frame is handed out and those before it are dropped |
| Receiver.Memory.MaybeRelease | lib/librabbitmq/amqp_connection.c:409-433 | a channel's pool is recycled exactly when the reader is idle, no parked frame is on the channel, and it has a pool; nothing in use is touched |
| Receiver.Memory.ReleaseAll | lib/librabbitmq/amqp_connection.c:388-400 | the walk over the whole pool table recycles exactly the channels without parked frames |
| Receiver.Memory.InUseApart | lib/librabbitmq/amqp_mem.c:125-236 | all memory handed out and not recycled is pairwise disjoint, within a channel and across channels |
| Receiver.StepKeepsSafe | lib/librabbitmq/amqp_connection.c:409-433 | every step of the receive side keeps all memory in use unrecycled and each piece with one user |
| Receiver.EveryStateIsSafe | lib/librabbitmq/amqp_connection.c:409-433 | so does every run, of any steps in any order |
| Receiver.RecycleSafely | lib/librabbitmq/amqp_connection.c:409-433 | recycling a channel is safe if and only if no parked frame and no half-read frame is on it |
| FrameQueue.Inbox.WaitFrameInner | lib/librabbitmq/amqp_socket.c:685-786 | frames are taken from the buffer and the socket until one is not a heartbeat |
| FrameQueue.Inbox.QueueFrame | lib/librabbitmq/amqp_socket.c:813-830 | the frame is linked at the end; first and last stay consistent |
| FrameQueue.Inbox.PutBackFrame | lib/librabbitmq/amqp_socket.c:832-849 | the frame, whichever it is, is linked at the front |
| FrameQueue.Inbox.WaitFrame | lib/librabbitmq/amqp_socket.c:898-913 | the first parked frame is handed out, or one from the stream |
| FrameQueue.Inbox.TryRecvFrames | lib/librabbitmq/amqp_socket.c:620-661 | everything in the buffer is parked, heartbeats too, and one receive follows |
| FrameQueue.Inbox.SimpleRpc | lib/librabbitmq/amqp_socket.c:961-1048 | when sending the request fails nothing is received; otherwise every frame but a reply is parked until a reply comes |
| FrameQueue.Inbox.WaitFrameOnChannel | lib/librabbitmq/amqp_socket.c:851-890 | the first parked frame of the channel is found by a walk over the links, or one is waited for and others are parked |
| FrameQueue.Inbox.Perform | lib/librabbitmq/amqp_socket.c:620-1048 | any run of these operations on the linked queue does what the run on values does |
| FrameQueue.Rpc | lib/librabbitmq/amqp_socket.c:998-1046 | a reply is of the expected kind on the channel, or closes the channel or the connection, and is normal exactly when it is expected |
| FrameQueue.IdInReplyList | lib/librabbitmq/amqp_socket.c:950-960 | a method is looked for in a list up to its first zero |
| FrameQueue.WaitInnerAnswers | lib/librabbitmq/amqp_socket.c:685-786 | the next frame that is no heartbeat is returned, or the status with which the stream ends |
| FrameQueue.CallAnswers | lib/librabbitmq/amqp_socket.c:961-1048 | a synchronous call whose request is sent returns the first frame, before a receive fails, that is a listed method or channel.close on its channel or connection.close on channel 0, as normal exactly when it is listed, and parks exactly the frames before it that are no heartbeats, in order; without one it parks all that can be read |
| FrameQueue.WaitAnswers | lib/librabbitmq/amqp_socket.c:898-913 | a wait returns the first parked frame, or else the next in the stream that is no heartbeat |
| FrameQueue.WaitOnAnswers | lib/librabbitmq/amqp_socket.c:851-890 | a wait for a channel returns its first parked frame, or else its first in the stream, and parks the others before that |
| FrameQueue.TryRecvAnswers | lib/librabbitmq/amqp_socket.c:620-661 | the buffered frames are parked in order, and the next receive fills the buffer or fails |
| FrameQueue.WaitOnKeeps | lib/librabbitmq/amqp_socket.c:851-890 | a wait for a channel keeps all frames and the order on each channel when its frame is first in the queue or not in it |
| FrameQueue.WaitOnLoses | lib/librabbitmq/amqp_socket.c:858-868 | in any state it loses frames if and only if its frame is further back, and then exactly those before it, which are the gap on their channels |
| FrameQueue.DoKeeps | lib/librabbitmq/amqp_socket.c:620-1048 | each operation keeps the stream, the fates of frames and their order, and records its reply |
| FrameQueue.RunKeeps | lib/librabbitmq/amqp_socket.c:620-1048 | over every run in which no wait skips parked frames and only the frame handed out last is put back, each frame taken is swallowed as a heartbeat, returned as a reply, handed out or parked, in order on each channel |
| FrameQueue.RunKeepsOrder | lib/librabbitmq/amqp_socket.c:620-1048 | without waits for one channel the order holds across all channels |
| FrameQueue.FromTheStart | lib/librabbitmq/amqp_socket.c:620-1048 | the same for a new connection: taken and remaining frames are the stream, only heartbeats are swallowed, the answers are the replies returned |
| FrameQueue.PutBackUndoesWait | lib/librabbitmq/amqp_socket.c:832-849 | after a put back the next wait returns the same frame and ends in the same state |
| FrameQueue.PutBackAdds | lib/librabbitmq/amqp_socket.c:832-849 | a put back adds no frame if and only if it is the one handed out last; any other is one too many |
| FrameQueue.RunBalances | lib/librabbitmq/amqp_socket.c:620-1048 | over every run, frames kept and frames added are together the frames handed out, parked and lost, where those lost are exactly the ones that waits for a channel skip; a run is one of those of RunKeeps if and only if none are lost or added |
| FrameQueue.NothingLostIff | lib/librabbitmq/amqp_socket.c:620-1048 | if only frames handed out last are put back, each frame kept has been handed out or is parked if and only if no wait has skipped any |
| Fifo.Queue.CheckSize | src/fifo.c:177-189 | the full mark says whether the size has reached the limit |
| Fifo.Queue.Shift | src/fifo.c:311-339 | shift takes the oldest event off, also the last one, which leaves the end pointer stale but the queue valid |
| Fifo.Queue.Pop | src/fifo.c:341-367 | pop takes the newest event off; if it was the only one, the start pointer is left pointing at it |
| Fifo.Queue.Push | src/fifo.c:251-278 | push appends, after dropping the oldest event of a full queue |
| Fifo.Queue.Prepend | src/fifo.c:280-309 | prepend puts an event in front, after dropping the newest of a full queue; the queue stays valid if and only if it was not full with a single event |
| Fifo.Queue.Sync | src/fifo.c:191-249 | the walk writes the events in order when there is something new and the file opens, and clears the dirty mark |
| StoreForward.Module.DoConnect | src/neb2amqp.c:145-216 | each step is skipped after an error; the module is connected exactly when none failed |
| StoreForward.Module.DoDisconnect | src/neb2amqp.c:313-344 | the module is not connected afterwards |
| StoreForward.Module.DoCheck | src/neb2amqp.c:284-311 | a connection attempt is made only outside blackouts and after the waiting time |
| StoreForward.Module.DoPublish | src/neb2amqp.c:346-381 | sends on a live connection and disconnects after a failure |
| StoreForward.Module.DoToggleBlackout | src/neb2amqp.c:57-72 | a blackout disconnects |
| StoreForward.Module.DoFlush | src/neb2amqp.c:238-270 | sends queued events, oldest first, and puts back the first one that fails |
| StoreForward.Module.DoFifoCheck | src/neb2amqp.c:218-282 | flushes and saves when their intervals have passed |
| StoreForward.Module.DoSendEvent | src/neb2amqp.c:383-405 | publishes at once past an empty queue, and queues otherwise or after a failure |
| StoreForward.Module.Perform | src/neb2amqp.c:57-405 | any run of these operations on the linked queue does what the run on values does |
| StoreForward.CheckKeeps | src/neb2amqp.c:284-311 | connected means no pending error and no blackout, and a check leaves queue and history alone |
| StoreForward.PublishMeans | src/neb2amqp.c:346-381 | publishing succeeds exactly when the connection is up and the broker's own answer is a success |
| StoreForward.PushKeeps | src/fifo.c:251-278 | the oldest event is dropped exactly when the queue is at capacity, and it is accounted for |
| StoreForward.PutBackHasRoom | src/neb2amqp.c:248-267 | putting an event back never finds the queue full, so that no run takes the newest event off |
| StoreForward.FlushKeeps | src/neb2amqp.c:238-270 | flushing neither loses, drops nor reorders events |
| StoreForward.SendEventKeeps | src/neb2amqp.c:383-405 | each event sent is accepted last, and its status says whether it is with the broker or at the end of the queue |
| StoreForward.DoKeeps | src/neb2amqp.c:57-405 | every operation keeps the whole invariant |
| StoreForward.NothingElseIsLost | src/neb2amqp.c:57-405 | over every run, whatever broker and clock do, the queue is the tail of the accepted events, earlier ones are published or dropped but not both, and the broker took the published ones in order |
| StoreForward.AttemptsArePaced | src/neb2amqp.c:284-311 | over every run with a clock that does not go back, connection attempts are at least the waiting time apart |
| StoreForward.ConnectMeans | src/neb2amqp.c:145-216 | connecting makes one attempt and succeeds if and only if each of its three or four steps is answered with a success |
| StoreForward.CheckMeans | src/neb2amqp.c:284-311 | a check attempts a connection if and only if there is none, no blackout, and no attempt yet or the last one at least the waiting time ago |
| StoreForward.RunRemembers | src/neb2amqp.c:57-405 | over every run the module remembers the time of its last attempt |
| StoreForward.FlushPublishes | src/neb2amqp.c:238-270 | flushing a live connection publishes the oldest events, as many as the broker takes up to the number asked for, and stays connected unless one fails |
| StoreForward.FifoCheckMeans | src/neb2amqp.c:218-282 | on a live connection the queue is flushed exactly when it is not empty and the interval has passed, by the number configured or a fifth of the capacity up to 1000; it is saved exactly when that interval has |
| StoreForward.NoFlush | src/neb2amqp.c:218-282 | without a connection nothing is flushed |
| StoreForward.EventGoesOut | src/neb2amqp.c:383-405 | with an empty queue, no blackout, and a connection or one that is due, an event goes to a broker that answers with successes at once |
| StoreForward.FirstEventGoesOut | src/neb2amqp.c:383-405 | so does the first event of a new module, after one attempt to connect |
| StoreForward.DisconnectMeans | src/neb2amqp.c:313-344 | channel and connection are closed when connected, and an error is left exactly when one of the answers is none |
| StoreForward.ToggleMeans | src/neb2amqp.c:57-72 | a blackout starts and ends in turn; starting one disconnects, and ending one connects nothing |
| Splitter.OffsetInBounds | src/json.c:50-53 | every chunk starts within the text |
| Splitter.SplitIsPrefix | src/events.c:36-62 | the chunks together are the stated prefix of the text, and all of it if and only if quotient and remainder add up to less than the room |
| Splitter.TwoMessagesTooFew | src/events.c:36-62 | a text whose end is lost |
| Splitter.UpdateField | src/json.c:39-59 | the field holds the chunk at the given count |
| Splitter.WriteEvent | lib/jansson-2.3.1/src/dump.c:403-418 | the message is the text of an object with the members of the event in some order, or empty when a string in it is invalid |
| Splitter.WrittenIsLaid | src/events.c:48-55 | without invalid strings the message is the text of the event's members, laid out by the flags 0 |
| Splitter.WrittenIsReceived | src/events.c:48-55 | a message about an event with an invalid string is empty; any other is received as that event, its reals as what their texts are converted to, exactly when none of these is refused |
| Splitter.SplitMessage | src/events.c:36-62 | one message per chunk, each about the same event with the chunk in its field, which keeps the last one |
| Splitter.ChunkIsReceived | src/events.c:36-62 | a message is received with its chunk and with every other field exactly when the chunk is valid and the rest of the event can be received; it is empty when one of them cannot be written |
| Splitter.CutBetweenCharacters | src/json.c:47-53 | if there is room for a text, all its chunks are valid if and only if it is valid and each chunk starts between characters |
| Splitter.AsciiOnBoundaries | src/json.c:47-53 | in ASCII text every chunk does |
| Splitter.ArrivesWhole | src/events.c:36-62 | every message is received and the texts in them join to the whole text if and only if the rest of the event can be received, there is room, and each chunk starts between characters |
| Splitter.SendAll | src/events.c:110-127 | the three texts are split one after the other, each field keeping its last chunk while the next is sent |
| Splitter.FieldNames | src/events.c:124-126 | the fields are called `long_output`, `output` and `perf_data` |
| Splitter.AllArrive | src/events.c:110-127 | all three texts arrive whole if and only if the rest of the event can be received and each of them has room and is cut between characters |
| Splitter.BadChunkStays | src/events.c:110-127 | if the last chunk of the first text is invalid, every message for the other two is empty |
| Splitter.CutCharacterLosesAll | src/events.c:110-127 | a valid text with room enough for which no message arrives, and none for the texts after it |

## Left out

- Allocation failures: every allocation succeeds.
- Sockets, select, name lookup, SASL and login: incoming octets and results are inputs.
- FrameQueue.Inbox.WaitFrameInner: heartbeats are not sent, and the deadlines depend on real time between two clock readings; a time-out is one of the possible results of a receive.
- FrameQueue.Inbox.SimpleRpc: what sending the request returns is an input.
- FrameReader.Connection.HandleInput: starts from the idle state, as the initial one copies a header shorter than the one it gathered; a declared length within eight octets of 2^32, whose size wraps around in C, is an outcome of its own.
- FrameReader.Connection.FinishFrame: the decoders of methods and properties are parameters that accept or reject a number and the octets after the fixed part; what the reader makes of a content header without that part is not followed, as it depends on memory.
- MethodCodec: the properties codecs with their flag words; methods other than the two examples are instances of the generator.
- TableCodec.TableRoundTrip: buffers longer than 2^32 octets, which no frame can carry.
- HashTable.HashTable.Set: requires fewer pairs than the largest bucket count, about 1.6 * 10^9.
- JsonPrinter.WrittenReal: the text the C library writes for a finite real is an input, any number with a fraction or an exponent; so is the conversion back.
- JsonEquality.Equal: the two values are apart, while the code finds a value equal to itself at once, even one with a NaN in it.
- JsonLexer.Lexer.Get: line, column and position, which appear in error messages only.
- JsonLexer.Lexer.Unget: the same; the octet 0, which an unget loses.
- JsonParser.ParseDocument: text from a buffer or a file, which may hold the octet 0; a string may not.
- JsonParser.ParseObject: builds a map; that the hash table behaves like one is stated by HashTable.HashTable.Perform.
- JsonGraph.DumpDocument: sinks that fail.
- JsonContainers.JsonArray.Insert: reference counts.
- Removing from JSON arrays, copying values, and the pack and unpack interfaces.
- Content.SendFrame: an outbound buffer of fewer than 20 octets, for which the room for a payload wraps around; the smallest frame the protocol allows has 4096.
- Content.ReadMessage: receive errors other than running out of frames.
- Fifo.Queue.Pop: an empty queue whose last event has been shifted, and freed by its receiver.
- Fifo.Queue.Prepend: a limit below 1.
- Fifo: reading the queue's file back (`n2a_load` runs one extra turn at the end of the file) and the lock file.
- StoreForward: options, callback registration and logging.
- Splitter.SplitMessage: requires room for at least one octet; a text that is NULL, for which the C library sends "(null)".
