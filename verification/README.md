# Verification of the web framework's data structures, codecs and query translators

This project models the parts of the framework that are built from its own algorithms, and proves
what they promise for every input, every run or every interleaving:

- the ordered map: a red-black tree with parent links and a shared sentinel;
- the JSON engine: string coding, the printer that walks links, the parser driven by a current-parent
  pointer, and the token allocator with its in-place free lists;
- the SQL template translator and the second rewriting done for MySQL;
- record change tracking and the UPDATE statement built from it;
- the per-thread connection pool, as interleaved atomic steps of any number of threads;
- the chained hash map, SHA-256 and SHA-1, base64 and its URL form, query strings, the next run of
  scheduled tasks, range sampling, and the two byte buffers.

`dafny verify dfyconfig.toml` checks the whole project.

## How the model is built

Structures linked by pointers are modelled in an explicit memory: a map from addresses to cells that
the operations rewrite one field at a time, with the shape it holds as a ghost tree. `Map` and
`MapTree`, `JsonTree`, `JsonParser`, `JsonPrinter`, `JsonSlab` and `JsonSlabRuns` work this way. Loops
are methods with invariants, proved against recursive definitions; the laws are lemmas about those
definitions. Where a standard says what the code should do, it is written out beside the model, with its
characters and tables as literals, and the two are proved to agree: RFC 8259 and RFC 3629 for JSON
(`JsonGrammar`, `JsonStringText`, `JsonReading`, `JsonUtf8`), FIPS 180-4 for the hashes (`ShaStandard`), RFC
4648 for base64.
`Sequences`, `Arith`, `Ascii`, `Decimals` and `Memory` hold facts about sequences, division, letters and
digits, decimal numbers and blocks of bytes, `Common` what all modules share.

Allocation succeeds, except in `BufferData`, where the source restores its state and failure is a
parameter. Clocks, random sources, the answers of a database, the texts foreign functions give for a
value and the outcome of opening a connection are parameters too. Sizes are unbounded integers; where a
limit or a wrap-around decides a branch (string growth, hash map reservation, the bit counter of the
hashes, the threshold of the sampler) it is written out.

## Where the code differs from what one would expect

- The printer refuses an array with a string directly after a non-empty container (`JsonPrinter.Stringify`,
  `JsonPrinter.RefusedDocument`).
- A string that is not valid UTF-8 does not come back from printing and parsing (`JsonString.StringRoundTrip`,
  `JsonString.LoneByteReplaced`).
- The parser compares only the first four letters of `false` and steps over five characters
  (`JsonParser.FalseStep`, `JsonParser.FalsXAccepted`).
- A template that ends inside a string, in a comment, a cast mark or a sigil loses the text after its last
  parameter (`SqlTemplateLaws.TailKept`, `SqlTemplateLaws.TailLost`).
- A block comment whose end an asterisk follows does not end (`SqlTemplateGrammar.BlockEnds`,
  `SqlTemplateGrammar.CommentReopened`).
- A string or comment directly after a reference becomes part of its name (`SqlTemplateGrammar.NameEnds`,
  `SqlTemplateGrammar.CommentInName`, `SqlTemplateGrammar.StringInName`).
- The translator does not know backticks, the MySQL rewriter does; a value can be bound without a question
  mark for it (`Mysql.MarksMatch`, `MysqlTemplate.BacktickMismatch`).
- Setting a number field from a null pointer makes it null without marking it (`Model.Record.SetIntNull`,
  `Model.NullLost`).
- The base64 decoder does not skip a line break before the last group (`Base64.WrappedRoundTrip`,
  `Base64.WrappedLoses`).
- A monthly task on day 29, 30 or 31 runs early in the following month when the month is too short
  (`Calendar.NextMonthly`, `Calendar.ShortMonth`).
- The header of the string type speaks of 24 inline bytes; the code has 32.

## Model

| member | source | states |
|---|---|---|
| Map.Map.constructor | misc/map.c:25-58 | A new map is a balanced search tree holding no entry, for every comparison that orders the keys, also one that calls different keys equal |
| Map.Map.RotateLeft | misc/map.c:361-379 | The node links change so that memory holds exactly the left-rotated tree in the same place, parent links included, and nothing else moves |
| Map.Map.RotateRight | misc/map.c:381-399 | The mirror image |
| Map.Map.InsertFixup | misc/map.c:401-438 | From a tree whose only fault is one red node that may have a red parent, the loop ends in a balanced tree with the same nodes in the same order and a black root |
| Map.Map.InsertStepLeft | misc/map.c:401-438 | One round below a left child: the fault is repaired or moves two levels up |
| Map.Map.RecolorLeft | misc/map.c:401-438 | A red uncle: the fault moves two levels up, black counts and order stay |
| Map.Map.RaiseLeft | misc/map.c:401-438 | A black uncle: one rotation repairs the fault and keeps the order |
| Map.Map.InsertStepRight | misc/map.c:401-438 | The mirror image |
| Map.Map.FindNode | misc/map.c:158-174 | Returns the node whose key compares equal to the given one, or the sentinel exactly when there is none |
| Map.Map.Find | misc/map.c:148-155 | Finds exactly the keys that compare equal to a key of the finite map, and returns the value stored there |
| Map.Map.Insert | misc/map.c:81-121 | On a finite map: with result 1 a key equal to none is added, with result 0 nothing changes; search order, colours, black counts and links are kept |
| Map.Map.InsertOrAssign | misc/map.c:124-145 | On a finite map: the entry of that key, stored under the equal key if there was one, has the new value; result 2 or 1 says whether it was there |
| Map.Map.Transplant | misc/map.c:440-448 | The subtree put in the place of another hangs where that one hung, also through the shared sentinel |
| Map.Map.TakeOut | misc/map.c:185-212 | Taking a node out, by its child or by its successor, leaves the order of the other nodes, and a tree that is at most one black node short at a known place |
| Map.Map.EraseFixup | misc/map.c:450-503 | From a tree that is one black node short at one place, the loop ends in a balanced tree with the same nodes in the same order |
| Map.Map.EraseBlackSiblingRight | misc/map.c:450-503 | The cases of a black sibling on the right: repaired, or one level up |
| Map.Map.EraseBlackSiblingLeft | misc/map.c:450-503 | The mirror image |
| Map.Map.Erase | misc/map.c:177-221 | On a finite map: the entry whose key compares equal is gone with result 1, else nothing changes with result 0; the invariant is kept |
| MapTree.SlotOf | misc/map.c:158-174 | At most one entry of a search tree compares equal to a key |
| Map.Map.Run | misc/map.c:81-221 | Any sequence of inserts, assignments and erasures keeps the invariant and acts as on a finite map |
| Map.Map.DepthIsLogarithmic | misc/map.c:81-221 | In every reachable state two to the depth is at most (size + 1) squared, so depth is at most 2 log2(size + 1) |
| Map.Map.Begin | misc/map.c:243-252 | The first node in key order, or none |
| Map.Map.Successor | misc/map.c:517-527 | Walking the links gives the next node in key order |
| Map.Map.Predecessor | misc/map.c:529-539 | Walking the links gives the previous node in key order |
| Map.Map.Next | misc/map.c:261-268 | The next node in key order, and none from the end |
| Map.Map.Prev | misc/map.c:270-281 | The previous node in key order; the last one from the end |
| Map.Map.Traverse | misc/map.c:243-268 | Iteration from the beginning meets every key exactly once, strictly ascending |
| MapTree.PrevUndoesNext | misc/map.c:517-539 | Going back undoes going forward, and the other way round, between nodes of the tree |
| MapTree.LogarithmicHeight | misc/map.c:401-503 | Red-black balance bounds the height by twice the logarithm of the size |
| JsonString.DecodeEncode | misc/json.c:2124-2194 | What the decoder reads is exactly the UTF-8 form of a Unicode scalar value |
| JsonUtf8.EncodeDecode | misc/json.c:2124-2194 | The decoder reads back every encoded scalar value, whatever follows |
| JsonUtf8.ValidIsUtf8 | misc/json.c:2124-2194 | A string is valid to the coder if and only if it is a concatenation of encoded scalar values (RFC 3629) |
| JsonUtf8.Utf8OfIs | misc/json.c:645-670 | What the scanner writes for a scalar value is its line of the table in section 3 of RFC 3629, and nothing else is |
| JsonUtf8.CleanBad | misc/json.c:2283-2300 | Where no character stands, one octet and the octets of the form 10xxxxxx behind it become one replacement character |
| JsonUtf8.CleanGood | misc/json.c:2283-2300 | A well-formed character stays |
| JsonString.ProcessEscapes | misc/json.c:2226-2309 | The loop appends the escaped form of the source, in either mode |
| JsonString.ParseString | misc/json.c:475-843 | The scanner computes the unit-by-unit definition, which `JsonStringText` shows to be the grammar of section 7 of RFC 8259 |
| JsonStringText.ScanSpelled | misc/json.c:475-843 | Every string of RFC 8259 is accepted and gives its text in UTF-8, whichever way each character is written: as it is, by any of the eight short escapes, or in hexadecimal of either case, a surrogate pair included |
| JsonStringText.ScanOnly | misc/json.c:475-843 | Nothing else is accepted |
| JsonStringText.StringTokens | misc/json.c:475-843 | A string token is accepted if and only if a string of the grammar stands there |
| JsonStringText.EscapedAscii | misc/json.c:2226-2309 | How each ASCII character is printed: seven by a letter, the other control characters in lower-case hexadecimal, the rest as it is |
| JsonStringText.EscapedBeyond | misc/json.c:2226-2309 | Beyond ASCII a character is printed as it is, or in hexadecimal in ASCII mode |
| JsonStringText.AsciiOnly | misc/json.c:2226-2309 | In ASCII mode nothing beyond ASCII is printed, for any bytes |
| JsonString.ScanEscape | misc/json.c:475-843 | The escaped form of any bytes, in quotes, is accepted and read as the bytes with malformed parts replaced |
| JsonString.StringRoundTrip | misc/json.c:475-843 | Escaping and scanning give back the same bytes if and only if they are valid UTF-8, in either mode |
| JsonString.CleanUnchanged | misc/json.c:2226-2309 | Replacing malformed parts changes a string if and only if it is not valid UTF-8 |
| JsonString.LoneByteReplaced | misc/json.c:2226-2309 | The byte 0xFF alone comes back as the replacement character |
| JsonPrinter.Stringify | misc/json.c:2324-2604 | The link-walking printer ends on every well-linked tree; it succeeds exactly when no array has a string directly after a non-empty container, and then prints what the recursive printer prints |
| JsonPrinter.RefusedDocument | misc/json.c:2324-2604 | A family of documents that does not print: an array with a string after a non-empty array |
| JsonPrinter.StepClose | misc/json.c:2324-2604 | Leaving containers closes as many as end here and goes on with the next item, member or the end |
| JsonParser.LinkedAppends | misc/json.c:845-858 | Linking a token under a parent appends it to the list of the children that the child and sibling links run through, sets its parent and counts it |
| JsonParser.FindContainer | misc/json.c:883-1131 | Climbing the parent links finds the nearest enclosing container of a kind |
| JsonParser.StepSound | misc/json.c:883-1131 | Every step of the parser moves forward and keeps links inside the token memory, parents older than children |
| JsonParser.Parse | misc/json.c:883-1131 | The loop computes the fold of its steps over any input; `JsonReading.ParseText` says what that fold is on JSON texts |
| JsonParser.TakeChar | misc/json.c:883-1131 | One round of the loop, whatever character it meets, is one step |
| JsonParser.FalseStep | misc/json.c:436-455 | At an f the parser goes on exactly if the four letters fals stand there, and reads the word false exactly if the fifth is an e |
| JsonParser.FalsXAccepted | misc/json.c:436-455 | The text fals followed by any character is read as a document |
| JsonReading.AddedKept | misc/json.c:860-877 | A new token hangs under the current parent as its last child, becomes the root if there is none, and leaves all other tokens as they were |
| JsonReading.ReadValue | misc/json.c:883-1131 | Wherever a JSON text of a value stands where a value may stand, parsing it hangs the document it stands for, and only it, under the current parent |
| JsonReading.ParseText | misc/json.c:883-1131 | Every JSON text of RFC 8259 with integer numbers is accepted, whatever white space is before, in and after it and however its strings are written, and builds the document it stands for: types, texts, child order, sizes, sibling and parent links |
| JsonReading.OnlyTokens | misc/json.c:883-1131 | No other character may start a token |
| JsonReading.KeysAreStrings | misc/json.c:883-1131 | Directly in an object no value and no container may stand |
| JsonRoundTrip.PrintedText | misc/json.c:2324-2604 | What is printed for a document is a JSON text that stands for it, malformed UTF-8 replaced |
| JsonRoundTrip.ParsePrinted | misc/json.c:883-1131 | Parsing the printed form of any document is accepted and builds it: types, texts, child order, sizes, sibling and parent links |
| JsonRoundTrip.DocumentRoundTrip | misc/json.c:883-1131 | The document read back equals the one printed if and only if its strings and keys are valid UTF-8 |
| JsonRoundTrip.Copy | misc/json.c:2642-2664 | Copying by printing and parsing succeeds exactly on printable documents, and gives the same document exactly when its texts are valid UTF-8 |
| JsonSlab.CreateBlock | misc/json.c:69-101 | A new block has all its slots in its free list, once each |
| JsonSlab.Manager.TakeSlot | misc/json.c:110-127 | The slot handed out was not in use, and leaves the head of the free list; no other token changes |
| JsonSlab.Manager.GiveSlot | misc/json.c:129-142 | The slot given back is free, at the head of its list; no other token changes |
| JsonSlab.Manager.Alloc | misc/json.c:1158-1211 | A token handed out was never in use; a block is added only when all are full; other tokens are untouched and every free list stays exact |
| JsonSlab.Manager.SetToken | misc/json.c:845-858 | Writing links into a token in use changes no other token and no free list |
| JsonSlab.Manager.FreeTree | misc/json.c:1232-1265 | Freeing a tree gives back exactly its tokens, once each and in order, and no other |
| JsonSlab.GivenCounts | misc/json.c:129-142 | Giving slots back lowers the used count of a block by as many as were its own |
| JsonSlab.UsedCounts | misc/json.c:69-142 | The used count of a block is the number of its slots in use |
| JsonSlab.Manager.DestroyEmptyBlocks | misc/json.c:199-241 | Only every thousandth call sweeps; it drops exactly the blocks with no token in use and keeps the others as they are |
| JsonSlab.DroppedKeeps | misc/json.c:199-241 | Dropping empty blocks loses no token in use |
| JsonSlabRuns.Run | misc/json.c:69-241 | Over any run of allocations, link updates, frees of trees and sweeps: exactly the tokens not given back are in use, each in a slot of its own and holding what was last written into it |
| JsonSlabRuns.PlacedOnce | misc/json.c:1232-1265 | A tree of tokens by their links stands in as many slots as it has tokens, and no token outside it stands there |
| SqlTemplate.Translate | framework/database/dbquery.c:507-672 | Succeeds exactly when the template can be cut and all its parameters rendered; then the query is the rendered pieces and the bind array their values in order |
| SqlTemplate.Process | framework/database/dbquery.c:683-751 | One value: an identifier, NULL or raw fragment inline, anything else a numbered placeholder with its cast and one more bound field |
| SqlTemplate.ProcessList | framework/database/dbquery.c:599-638 | A list parameter is its elements, comma-separated, numbered on |
| SqlTemplate.ProcessParam | framework/database/dbquery.c:585-657 | The first field of the name is used; an absent name, a list of the wrong type or an empty one fails |
| SqlTemplateGrammar.ReferencesFound | framework/database/dbquery.c:125-182 | For every template written from code, strings with doubled or escaped quotes, comments, casts and references, where each reference ends at a special character of code, at a cast or at the end, exactly the references are parameters and all other text is literal |
| SqlTemplateGrammar.NameEnds | framework/database/dbquery.c:525-590 | A reference is cut off at the first character behind its name that is no letter, digit, underscore or beyond ASCII, if and only if that is no lone sigil and opens no string or comment; a lone sigil fails the scan |
| SqlTemplateGrammar.NameCharIs | framework/database/dbquery.c:793-811 | A name goes on exactly through the ASCII letters and digits, the underscore and everything beyond ASCII |
| SqlTemplateGrammar.NameThen | framework/database/dbquery.c:525-590 | For every name of such characters and every character outside of them that is no sigil and opens no string or comment, exactly that name is the parameter |
| SqlTemplateGrammar.NameGoesOn | framework/database/dbquery.c:525-590 | Behind a name that goes on, every parameter found has a longer name or more text before it |
| SqlTemplateGrammar.CommentInName | framework/database/dbquery.c:525-590 | A comment directly behind a reference becomes part of its name |
| SqlTemplateGrammar.StringInName | framework/database/dbquery.c:525-590 | So does a string, up to its closing quote |
| SqlTemplateGrammar.SegmentRun | framework/database/dbquery.c:125-182 | Code with escaped quotes, strings with doubled or escaped quotes, both kinds of comment and casts are passed over whole, the character behind them fitting |
| SqlTemplateGrammar.BlockEnds | framework/database/dbquery.c:166-178 | The end mark of a block comment ends it if and only if no asterisk follows |
| SqlTemplateGrammar.BlockCommentRun | framework/database/dbquery.c:125-182 | A block comment is passed over up to its first end mark if no asterisk follows that; else the scanner is in a comment again behind the asterisk |
| SqlTemplateGrammar.CommentReopened | framework/database/dbquery.c:125-182 | A template whose comment end is followed by an asterisk is lost as a whole |
| SqlTemplateGrammar.CommentClosed | framework/database/dbquery.c:125-182 | With a space in between its reference is found |
| SqlTemplateLaws.LiteralCopied | framework/database/dbquery.c:507-672 | The pieces put together again are the template, byte for byte, up to the last copy point |
| SqlTemplateLaws.ProperNames | framework/database/dbquery.c:578-584 | Every parameter found has a sigil and a name of 1 to 255 characters |
| SqlTemplateLaws.FindNamed | framework/database/dbquery.c:594-597 | The parameter used is the first of its name |
| SqlTemplateLaws.TailKept | framework/database/dbquery.c:525-663 | The whole template is translated if and only if its last character is plain SQL text |
| SqlTemplateLaws.TailLost | framework/database/dbquery.c:536-548 | A template ending in a cast mark loses its tail |
| SqlTemplateLaws.PlaceholdersInOrder | framework/database/dbquery.c:731-748 | The k-th placeholder is numbered k, one for each bound value |
| SqlTemplateLaws.BindsMatchPlaceholders | framework/database/dbquery.c:683-751 | Putting the k-th bound value back for $k gives the template with its values substituted directly, and one is defined exactly when the other is |
| Mysql.PlaceholdersToMysql | framework/database/mysql.c:1293-1329 | The loop rewrites and counts as the recursive definition |
| Mysql.MarksMatch | framework/database/mysql.c:1293-1329 | For every query the translator can put together: the rewritten query has a question mark at each placeholder and nowhere else if and only if outside of quotes a dollar sign and a digit stand at placeholders only, each placeholder is outside quotes, and no digit follows its number; then there is one mark per bound value |
| Mysql.UnmarkedWhen | framework/database/mysql.c:1293-1329 | A text is left alone if and only if its dollar signs before digits are inside quotes |
| Mysql.Marks | framework/database/mysql.c:1293-1329 | Quotes are opened by the apostrophe, the quotation mark and the backtick |
| MysqlTemplate.OneMarkPerBind | framework/database/mysql.c:1288-1329 | For templates in which, as the lexer reads them, comments hold no quote or placeholder, strings no escaped quote, and other text no backtick, escaped quote or placeholder, and inlined values that end outside of quotes, there is exactly one question mark per bound value, in order |
| MysqlTemplate.BacktickMismatch | framework/database/mysql.c:1309-1313 | Between backticks the translator binds a value and the driver sends no question mark |
| MysqlTemplate.ScanEven | framework/database/dbquery.c:125-182 | In such a template each literal piece leaves the driver outside of quotes and holds no placeholder outside of quotes |
| MysqlTemplate.AdvanceAlike | framework/database/dbquery.c:125-182 | In such a template each move of the translator leaves the driver in the same quote |
| Model.Record.SetInt | framework/model/model.c:844-860 | The field holds the new number and is marked changed; what it says about the stored value stays true for every stored value |
| Model.Record.SetText | framework/model/model.c:1107-1133 | The same for text, and for setting it to null |
| Model.Record.SetIntNull | framework/model/model.c:1242-1246 | Setting a number from a null pointer keeps the record in step with its row if and only if the field was changed or null before |
| Model.Record.Fill | framework/model/model.c:1194-1221 | Each field takes the value of the last column of its name and is unchanged otherwise; it fails exactly when a value has the wrong type |
| Model.Record.Load | framework/model/model.c:2665-2677 | A record filled from a whole row agrees with it, and no field is marked changed |
| Model.Record.BuildSets | framework/model/model.c:2390-2414 | SET has one term for each changed field, with its new value |
| Model.Record.BuildWheres | framework/model/model.c:2418-2451 | WHERE has one term for each key column, with the old value where the key was changed, numbered after SET |
| Model.Record.Update | framework/model/model.c:2354-2485 | Over every run of setters and updates: the statement sent sets exactly the changed columns, with NULL at exactly those now null; a successful update makes the stored row equal to the record, found by the key it was stored under, even if the key changed, and touches no other row; a refused one leaves record, marks and table as they were |
| Model.StatementKnown | framework/model/model.c:2390-2451 | Every operand of the statement is the word NULL or a placeholder of a bound value, and SET has NULL exactly where a changed field is null |
| Model.Record.Run | framework/model/model.c:2354-2485 | Any run of setters and updates keeps the record in step with its row and acts as the same run on the row and the table |
| Model.OthersKept | framework/model/model.c:2354-2485 | No run touches a row of another record |
| Model.SavedRow | framework/model/model.c:2354-2485 | After an accepted update the stored row is what the setters before it said |
| Model.NullLost | framework/model/model.c:1242-1246 | A number made null from a null pointer: the row keeps its value and an update sets nothing |
| Model.UpdateReaches | framework/model/model.c:2354-2485 | The statement built from a record in step with its row, executed on a table with unique keys, changes that row to the record and no other |
| Model.FindsRow | framework/model/model.c:2418-2451 | The statement matches the stored row of the record and no other row |
| Model.ClauseMeans | framework/model/model.c:2053-2077 | Every operand of a clause is NULL or a placeholder of a bound value, and evaluates to what its field says |
| Pool.PoolSafe | framework/database/dbquery.c:184-232 | In every interleaving of any number of threads: at most one thread is in a critical section, the host has at most one connection per thread, and a thread gets its own |
| Pool.StepExclusive | framework/database/database.c:89-102 | The compare-and-swap lock keeps the two critical sections apart at every step |
| Pool.StepLocal | framework/database/dbquery.c:195-215 | What a thread learned in its lookup still holds when it appends, whatever the others did in the gap |
| Pool.SameConnection | framework/database/database.c:77-87 | A thread gets the same connection each time it asks |
| Pool.CallFindsOwn | framework/database/dbquery.c:184-232 | From every reachable state with the lock free, a thread with a connection gets it by its own moves if it is active or can be opened again, and the pool is unchanged |
| Pool.CallCreatesOne | framework/database/dbquery.c:198-232 | A thread without one gets a new connection, which is then the last of the pool; if none can be created it gets nothing and the pool is as before |
| HashMap.HashMap.constructor | misc/hashmap.c:24-58 | An empty map with the asked capacity or sixteen, and the asked load factor or three quarters |
| HashMap.HashMap.Locate | misc/hashmap.c:157-172 | Searching one chain decides whether any equal key is in the map |
| HashMap.HashMap.Find | misc/hashmap.c:149-154 | The value of the key, as in the finite map, or none |
| HashMap.HashMap.Insert | misc/hashmap.c:85-116 | On a finite map: a new key is added, a present one changes nothing; growing never fails; every entry stays in the bucket of its hash and keys stay unique |
| HashMap.HashMap.InsertOrAssign | misc/hashmap.c:119-146 | On a finite map: the key has the value afterwards |
| HashMap.HashMap.Erase | misc/hashmap.c:175-202 | On a finite map: the key is gone |
| HashMap.HashMap.Resize | misc/hashmap.c:435-465 | Succeeds exactly when there is a bucket for each entry, and keeps the entries |
| HashMap.HashMap.Rehash | misc/hashmap.c:229-234 | Refuses capacity zero and a capacity below the size; otherwise keeps the entries |
| HashMap.HashMap.Reserve | misc/hashmap.c:237-263 | Afterwards the count fits below the load factor, as far as sizes go, and the entries are the same |
| HashMap.HashMap.Clear | misc/hashmap.c:61-72 | No entry is left and the capacity stays |
| HashMap.HashMap.Begin | misc/hashmap.c:266-285 | The first entry, or the end |
| HashMap.HashMap.Next | misc/hashmap.c:295-318 | The entry after, or the end after the last one |
| HashMap.HashMap.Traverse | misc/hashmap.c:266-318 | Iteration meets every entry exactly once |
| HashMap.MapsAdded | misc/hashmap.c:85-116 | Adding an entry with a new key changes the finite map at that key only |
| HashMap.MapsRemoved | misc/hashmap.c:175-202 | Removing an entry changes the finite map at its key only |
| Sha256.Transform | misc/sha256.c:39-79 | The two loops compute the compression function of FIPS 180-4 |
| Sha256.Sum | misc/sha256.c:81-86 | For every message under 2^61 bytes the result is the hash of FIPS 180-4 |
| ShaStandard.Sha256Init | misc/sha256.c:102-111 | The initial words are the first 32 bits of the fractional parts of the square roots of the first eight primes |
| ShaStandard.Sha256Row0 | misc/sha256.c:16-33 | The constants are those of the cube roots of the primes; so for the seven other rows |
| ShaStandard.Choose256 | misc/sha256.c:9-14 | Choose takes each bit from y or z as x says |
| ShaStandard.Majority256 | misc/sha256.c:9-14 | Majority takes the bits two agree on |
| ShaStandard.RightBy | misc/sha256.c:6-14 | The rotations are those of the words |
| ShaStandard.WordOctets | misc/sha256.c:42-43 | A word read from a block has its octets, most significant first |
| ShaStandard.Rounds256 | misc/sha256.c:39-79 | The eight registers are the last four values of two recurrences |
| ShaStandard.Compress256 | misc/sha256.c:39-79 | The compression adds those values after 64 rounds to the chaining value |
| Sha.Context.Push | misc/sha256.c:113-125 | One byte more: the state is the compression function folded over the whole blocks so far, the rest is in the buffer |
| Sha.Context.Update | misc/sha256.c:113-125 | The context stands for the message so far followed by the bytes given |
| Sha.Context.Final | misc/sha256.c:127-154 | On both padding branches the state is the compression function folded over the blocks of the padded message |
| Sha.Output | misc/sha256.c:156-166 | The words of the state, most significant byte first |
| Sha.PaddedBlocks | misc/sha256.c:132-143 | The padding ends in the block of the message, or needs one more, by the length of the rest |
| Sha.LengthBytes | misc/sha256.c:145-153 | The eight bytes at the end are the bit length, most significant first |
| Sha1.Transform | misc/sha1.c:12-67 | The four loops of rounds compute the compression function of FIPS 180-4 |
| Sha1.Sum | misc/sha1.c:69-74 | For every message under 2^61 bytes the result is the hash of FIPS 180-4 |
| ShaStandard.Sha1Constants | misc/sha1.c:84-87 | The constants are the square roots of 2, 3, 5 and 10 times two to the thirtieth |
| ShaStandard.Sha1Init | misc/sha1.c:79-83 | The initial words count the hexadecimal digits up and down |
| ShaStandard.Rounds1 | misc/sha1.c:12-67 | The five registers are the last values of one recurrence, three of them rotated |
| ShaStandard.Compress1 | misc/sha1.c:12-67 | The compression adds those values after 80 rounds to the chaining value |
| Base64.Encode | misc/base64.c:132-171 | Groups of four characters, line breaks after each group that ends at a multiple of wrap, and padding |
| Base64.Unwrapped | misc/base64.c:36-40 | Without a wrap the encoding is plain groups and padding |
| Base64.AlphabetAt | misc/base64.c:25 | The characters are those of table 1 of RFC 4648 |
| Base64.ValueIs | misc/base64.c:5-23 | A character is decoded as its place in that table, and no other character is decoded |
| Base64.GroupBits | misc/base64.c:132-171 | Three bytes are one number of 24 bits, written in four characters of six bits each |
| Base64.TailBits | misc/base64.c:132-171 | One or two bytes are written as if zero bytes followed, padded |
| Base64.EncodingFits | misc/base64.c:118-130 | For every byte string and wrap the encoding and its terminator fit the computed length |
| Base64.Decode | misc/base64.c:68-116 | The loops compute the decoding of any text, and the length returned |
| Base64.RoundTrip | misc/base64.c:68-171 | Decoding the unwrapped encoding of any bytes gives them back, with their length |
| Base64.WrappedRoundTrip | misc/base64.c:68-171 | Decoding the encoding with line breaks gives the length back always, and the bytes if and only if no break precedes the last group, or the bytes of that group are 4, 4 and 0, or 4, 0 and 64 |
| Base64.DecodesWrapped | misc/base64.c:68-171 | What decoding makes of a text with line breaks: the last group is read from the break on if one precedes it |
| Base64.WrappedLoses | misc/base64.c:68-171 | Six zero bytes with a break after every fourth character do not come back |
| Base64.ToUrl | misc/jwt.c:57-71 | In place: the URL alphabet, without padding, terminated |
| Base64.FromUrl | misc/jwt.c:73-93 | The plain alphabet, padded to whole groups |
| Base64.UrlRoundTrip | misc/jwt.c:57-93 | An encoding comes back from its URL form |
| Base64.UrlSafe | misc/jwt.c:57-71 | The URL form has letters, digits, - and _ only |
| Base64.UrlCarries | misc/jwt.c:57-93 | Bytes encoded, put into the URL form, taken out and decoded are the same bytes |
| Query.UrlEncode | misc/helpers.c:206-233 | The loop encodes byte by byte |
| Query.UrlDecode | misc/helpers.c:239-274 | The loop decodes; a broken escape stays as it is |
| Query.DecodeEncode | misc/helpers.c:206-274 | Decoding undoes encoding for every byte string |
| Query.EncodedAs | misc/helpers.c:206-233 | Letters, digits and - _ . ~ stay, a space is a plus sign, every other byte is a percent sign and two upper-case hexadecimal digits |
| Query.DecodedAs | misc/helpers.c:239-274 | A percent sign and two hexadecimal digits of either case are one byte |
| Query.DecodedBroken | misc/helpers.c:239-274 | A percent sign without two such digits stays |
| Query.DecodedOther | misc/helpers.c:239-274 | Any other character is itself, a plus sign is a space |
| Query.FinishPair | misc/queryparser.c:26-43 | The pair of the piece between two positions, split at its first equals sign |
| Query.Parse | misc/queryparser.c:45-114 | The one-pass parser gives what cutting at the first #, splitting at each &, splitting at the first = and decoding give |
| Query.Stringify | misc/queryparser.c:149-187 | The pairs encoded and joined |
| Query.ParsePrinted | misc/queryparser.c:45-187 | Parsing the printed form of any non-empty list of pairs without zero bytes gives the list back |
| Calendar.NextDaily | framework/taskmanager/taskmanager_calc.c:7-26 | The least instant after now with that time of day |
| Calendar.NextWeekly | framework/taskmanager/taskmanager_calc.c:29-55 | The least instant after now on that weekday with that time of day |
| Calendar.NextMonthly | framework/taskmanager/taskmanager_calc.c:58-78 | That day counted from the first of the month now is in, or of the next; always after now; the least instant on that day of the month with that time if and only if the month has that day, which holds for days 1 to 28 |
| Calendar.ShortMonth | framework/taskmanager/taskmanager_calc.c:58-78 | At noon of January 31 a task for day 31 is next run on March 3 |
| Calendar.MonthUnique | framework/taskmanager/taskmanager_calc.c:58-78 | A day lies in exactly one month of the Gregorian calendar |
| Calendar.MonthStarts | framework/taskmanager/taskmanager_calc.c:58-78 | The day a month starts on, in closed form by the leap rule of the Gregorian calendar |
| Calendar.Millennium | framework/taskmanager/taskmanager_calc.c:29-55 | January 1, 2000 was day 10957, a Saturday |
| Random.Range | misc/random.c:52-64 | The first accepted raw value decides, reduced into the range; an empty range gives its lower end |
| Random.EqualShares | misc/random.c:74-86 | For every range, each number is the image of equally many accepted raw values |
| Str.Str.constructor | misc/str.c:64-90 | An empty text |
| Str.Str.Insert | misc/str.c:220-252 | The text with the bytes inserted at the position, in whichever buffer, all accesses in bounds and terminated; it fails for a position behind the text or at the end of the address space, and then changes nothing |
| Str.Str.InsertChar | misc/str.c:178-209 | The same for one character, with its own path in the inline buffer |
| Str.Str.Append | misc/str.c:258-261 | The text followed by the bytes |
| Str.Str.Assign | misc/str.c:301-307 | The new text; a null argument fails and leaves the text empty |
| Str.Str.Move | misc/str.c:309-334 | The text goes to the other string and this one is empty, also when it is moved onto itself |
| Str.Str.ExpandBuffer | misc/str.c:395-439 | Room for the extra bytes and the terminator, the same text |
| Str.Str.SwitchToDynamic | misc/str.c:442-466 | The same text, now on the heap |
| Str.Str.Reserve | misc/str.c:111-149 | A buffer of at least that size, the same text |
| Str.Str.Reset | misc/str.c:92-109 | An empty text, and the inline buffer wiped |
| Str.Str.Get | misc/str.c:351-359 | The text with a terminator behind it |
| Str.Str.Pop | misc/str.c:361-370 | The text without its last character |
| Str.Str.Copy | misc/str.c:379-393 | The text and a terminator, in a new block |
| BufferData.Buffer.constructor | misc/bufferdata.c:9-18 | No bytes |
| BufferData.Buffer.Push | misc/bufferdata.c:20-41 | The bytes followed by the new one; without memory to spill nothing changes |
| BufferData.Buffer.Spill | misc/bufferdata.c:82-105 | The collected bytes go behind those on the heap, in bounds and terminated |
| BufferData.Buffer.Complete | misc/bufferdata.c:73-80 | The same bytes, all of them on the heap if any are |
| BufferData.Buffer.Get | misc/bufferdata.c:162-174 | All bytes in one place, terminated |
| BufferData.Buffer.Copy | misc/bufferdata.c:176-191 | The bytes and a terminator, in a block of their own |
| BufferData.Buffer.Back | misc/bufferdata.c:193-204 | The last byte, or zero |
| BufferData.Buffer.PopBack | misc/bufferdata.c:206-226 | The bytes without the last one, which is returned |
| BufferData.Buffer.Length | misc/bufferdata.c:64-71 | The number of bytes |
| BufferData.Buffer.Reset | misc/bufferdata.c:43-62 | No bytes; the heap block is kept or given back |

## Left out

- Map.Map.Prev: going back from the end is modelled for maps with an entry only, because from the end of an empty map the source walks off the sentinel.
- JsonParser.Parse: numbers are integers; fractions, exponents and the range of long double are not modelled, and the reasons for a rejection are one outcome. Which texts outside of RFC 8259 are accepted as well is not characterised.
- JsonReading.ParseText: numbers are integers of 64 bits.
- JsonRoundTrip.ParsePrinted: token addresses are handed out in increasing order, so the trees are equal up to addresses; which address the allocator gives is the subject of `JsonSlab` alone.
- SqlTemplateGrammar.ReferencesFound: covers templates that end in code, a string or a reference and whose references end as `NameEnds` asks; what happens otherwise is `NameEnds`, `BlockCommentRun` and `SqlTemplateLaws.TailKept`. Names of 256 characters and more are not references.
- MysqlTemplate.OneMarkPerBind: the conditions on template and values are sufficient, parameter names have no quote, and no dollar sign stands before a reference or no inlined value starts with a digit; the exact condition, on the translated query, is `Mysql.MarksMatch`.
- SqlTemplate.Process: escaping of identifiers, conversion of values to text and type casts are given with each field; null entries in the parameter array are not modelled.
- Model.Record.SetInt: stands for all number types; dates, JSON, enumerations, arrays and the raw fragments of time stamps are not modelled.
- Model.Record.Fill: cells of a result are typed values, the conversion from text is not modelled.
- Model.Record.Update: the statement is a list of terms, the text around them and identifier escaping are not modelled; the table is changed by nobody else.
- Pool.PoolSafe: one host, atomic steps in one order; the choice among hosts is not modelled, and that a waiting thread gets the lock in the end is not claimed, only what a call returns when the lock is free.
- HashMap.HashMap.Insert: load factors are exact fractions, and the doubling of the capacity does not overflow.
- Base64.Encode: lengths do not overflow the 32-bit integer of the source.
- Calendar.NextDaily: local time has a fixed offset, so changes of the clock are not modelled.
- Calendar.NextWeekly: the same.
- Calendar.NextMonthly: the same.
- Random.Range: a failed draw is the raw value zero, as in the source; an accepted value must come sooner or later, or the loop does not end.
- Str.Str.Insert: buffers are sequences with checked writes, so an argument that points into the string's own buffer is not modelled.
- BufferData.Buffer.Spill: bufferdata_move_data_to_start is not modelled.
- Copying and freeing of keys and values by callbacks, clearing the ordered map, and the hash functions for keys would add only easy members.
- Array, object and iterator operations on JSON tokens, json_token_free and json_token_set: some do not keep all links, the others are easy.
- Record creation, deletion and queries, prepared statements, result fetching, drivers, configuration, sessions, views, the server and everything done by foreign libraries.
