# load2neo: the Geoff reader, AbstractNode and NeoLoader

load2neo loads subgraphs written in the Geoff notation into a Neo4j database.
This project models its core in Dafny:

- **GeoffReader** reads Geoff text into a subgraph. It reads one character at a
  time with a one-character lookahead. The model keeps that shape: the class
  `Reader.GeoffReader` holds the text, a cursor and the peeked character, and
  each of its methods is proved to agree with a pure reference reader. The
  reference reader lives in modules `Scan`, `Literals`, `Entities` and
  `Document`: each read is a function from (text, cursor) to either a value and
  a new cursor, or the error the Java code raises. Two tests are the exception:
  the end of a quoted string and the skipping of a relationship's name follow
  the corrected code under "## Findings", so every reader that reaches them does
  too (see "## Left out").
- **AbstractNode** is a node that the reader builds and merges. It is the class
  `Nodes.AbstractNode`, whose fields are updated in place. Each method is
  specified by a function on its field values (`NodeVal`).
- **Subgraph** (`Graph.Subgraph`) is a name-to-node map plus a list of
  relationships and comments. Its abstract value is `Document.Doc`.
- **NeoLoader** writes a subgraph into the database. The database is modelled
  as `GraphStore.Store`: node and relationship ids are positions in two
  sequences. Only the API calls the loader makes are modelled.
  `Loader.NeoLoader.Load` is proved against three predicates. `Resolved` says
  every node has a store node that carries its labels and the keys of its
  non-null properties, and that non-unique nodes get distinct new store nodes.
  The values are those written when the node was loaded (`LoadedAt`, `Written`);
  a later unique node that finds the same store node may overwrite them. `LoadedAt`
  describes one node load. `Named` gives the returned map of named nodes.

The reader reads a string, a number, a boolean, null or an array. Its value
type is `Values.Value`. Java's `Integer` is 32-bit, so `parseInt` fails outside
[-2^31, 2^31-1]. A `Double` is kept as the literal it was read from.

Source paths below are relative to the repository root.

## Model

| member | source | states |
|---|---|---|
| Values.NonNull | src/main/java/com/nigelsmall/load2neo/NeoLoader.java:157-161 | exactly the entries whose value is not null, with their values |
| Values.Overwrite | src/main/java/com/nigelsmall/load2neo/AbstractNode.java:118-126 | putAll: the keys are both key sets; an incoming entry wins; every other key keeps its value |
| Chars.Trim | src/main/java/com/nigelsmall/geoff/reader/GeoffReader.java:228 | String.trim: empty, or neither end is a character up to U+0020 |
| Chars.TrimStrips | src/main/java/com/nigelsmall/geoff/reader/GeoffReader.java:228 | what trim keeps is one slice of the input, and every character before and after that slice is up to U+0020 |
| Scan.Peek | src/main/java/com/nigelsmall/geoff/reader/GeoffReader.java:69-78 | null exactly at the end of input; otherwise the character at the cursor |
| Scan.Read | src/main/java/com/nigelsmall/geoff/reader/GeoffReader.java:55-67 | fails with UnexpectedEndOfData exactly at the end; otherwise the next character, and the cursor advances by one |
| Scan.ReadChar | src/main/java/com/nigelsmall/geoff/reader/GeoffReader.java:80-86 | succeeds exactly when c is next, consuming it; otherwise "Unexpected character" |
| Scan.UntilEnd | src/main/java/com/nigelsmall/geoff/reader/GeoffReader.java:88-96 | stays in the input; reads nothing for a NUL terminator (the loop starts at '\0'); otherwise reads at least one character and stops only after the terminator or at the end |
| Scan.UntilEndStops | src/main/java/com/nigelsmall/geoff/reader/GeoffReader.java:88-96 | readUntil(c) stops just after the first c, with no c before it; with no c left it reads everything |
| Scan.UntilStrEnd | src/main/java/com/nigelsmall/geoff/reader/GeoffReader.java:98-105 | readUntil(String) stops at the end of input or once the text read ends with the terminator |
| Scan.UntilStrEndStep | src/main/java/com/nigelsmall/geoff/reader/GeoffReader.java:100-103 | proof helper: unfolds one round of the loop |
| Scan.UntilStrEndStop | src/main/java/com/nigelsmall/geoff/reader/GeoffReader.java:101 | the loop stops once the text ends with t or input is exhausted |
| Scan.WsEnd | src/main/java/com/nigelsmall/geoff/reader/GeoffReader.java:433-439 | skips exactly the maximal run of whitespace |
| Scan.NameEnd | src/main/java/com/nigelsmall/geoff/reader/GeoffReader.java:254-256 | skips exactly the maximal run of letters, digits and underscores |
| Scan.DigitsEnd | src/main/java/com/nigelsmall/geoff/reader/GeoffReader.java:309-311 | stops at a non-digit; throws NullCharacter when digits run to the end of input |
| Scan.DigitsEndDigits | src/main/java/com/nigelsmall/geoff/reader/GeoffReader.java:309-311 | consumes only digits; fails only when every remaining character is a digit |
| JsonString.DecodeEscapeBody | src/main/java/com/nigelsmall/geoff/reader/GeoffReader.java:389 | decoding an escaped body followed by t yields the original string in front of t's decoding |
| JsonString.DecodeBodyShorter | src/main/java/com/nigelsmall/geoff/reader/GeoffReader.java:389 | a decoded body is no longer than the characters it was decoded from |
| JsonString.DecodeShorter | src/main/java/com/nigelsmall/geoff/reader/GeoffReader.java:389 | a decoded string is shorter than its literal by at least the two quotes |
| JsonString.DecodeEncode | src/main/java/com/nigelsmall/geoff/reader/GeoffReader.java:389 | the JSON string decoder inverts the JSON string writer for every string |
| Literals.SpanEnd | src/main/java/com/nigelsmall/geoff/reader/GeoffReader.java:384-387 | the span ends, inside the input, only just after a quote that an even run of backslashes precedes |
| Literals.SpanEndAsWritten | src/main/java/com/nigelsmall/geoff/reader/GeoffReader.java:384-387 | the end test as written; stays in the input (its flaw is shown by StringProperties.SpanEndAsWrittenOverruns) |
| Literals.ReadString | src/main/java/com/nigelsmall/geoff/reader/GeoffReader.java:380-393 | on success it consumes at least the opening character, and the value is the JSON decoding of exactly the consumed span |
| Literals.ReadBoolean | src/main/java/com/nigelsmall/geoff/reader/GeoffReader.java:195-212 | on success it consumes input (see LiteralProperties.BooleanExact) |
| LiteralProperties.BooleanExact | src/main/java/com/nigelsmall/geoff/reader/GeoffReader.java:195-212 | succeeds exactly on `true`/`false`, returning that value and consuming 4 or 5 characters; "Cannot establish truth" when not at t or f; "Unexpected character" for a broken word |
| Literals.ScanMantissa | src/main/java/com/nigelsmall/geoff/reader/GeoffReader.java:307-318 | the sign, integer digits and optional fraction, in order, followed by a character |
| Literals.ScanExponent | src/main/java/com/nigelsmall/geoff/reader/GeoffReader.java:319-327 | an optional exponent after the mantissa |
| Literals.ParseNumber | src/main/java/com/nigelsmall/geoff/reader/GeoffReader.java:328-333 | a Double exactly when there is a '.' or an exponent, keeping its literal; an Integer within 32 bits; otherwise NumberFormatException |
| Literals.ReadNumber | src/main/java/com/nigelsmall/geoff/reader/GeoffReader.java:304-335 | consumes input; an Integer is within 32 bits; a Double is the literal consumed |
| LiteralProperties.NumberClassification | src/main/java/com/nigelsmall/geoff/reader/GeoffReader.java:304-335 | the result is a Double exactly when the consumed literal contains '.', 'e' or 'E' |
| Literals.ReadItem | src/main/java/com/nigelsmall/geoff/reader/GeoffReader.java:121-163 | an element of the kind fixed by the first element |
| Literals.NextItem | src/main/java/com/nigelsmall/geoff/reader/GeoffReader.java:124-129 | one comma round: consumes input and yields an element of the kind |
| Literals.ItemsLoop | src/main/java/com/nigelsmall/geoff/reader/GeoffReader.java:124-129 | all elements are of the kind, earlier ones are kept in order, and the loop stops where no ',' follows |
| Literals.ItemsLoopStep | src/main/java/com/nigelsmall/geoff/reader/GeoffReader.java:124-129 | one round appends the next element, or its error ends the array |
| Literals.NumericList | src/main/java/com/nigelsmall/geoff/reader/GeoffReader.java:133-153 | the integer list exactly when every element is an Integer; otherwise every element widened to double, in order |
| Literals.IntegerItems | src/main/java/com/nigelsmall/geoff/reader/GeoffReader.java:136-138 | as long as the numbers exactly when all are Integers, and then equal to them |
| Literals.DoubleItems | src/main/java/com/nigelsmall/geoff/reader/GeoffReader.java:135 | every number, in order, as a double |
| Literals.ArrayItems | src/main/java/com/nigelsmall/geoff/reader/GeoffReader.java:121-171 | a non-empty list, all of one kind |
| Literals.ArrayBody | src/main/java/com/nigelsmall/geoff/reader/GeoffReader.java:118-175 | on success it consumes the closing ']' |
| Literals.ArrayKind | src/main/java/com/nigelsmall/geoff/reader/GeoffReader.java:123-175 | the first element's lookahead picks the kind: '"' a string list, '-' or a digit a number list, 't' or 'f' a boolean list; end of input is NullCharacter; any other character is "Disarray" |
| Literals.ReadArray | src/main/java/com/nigelsmall/geoff/reader/GeoffReader.java:116-176 | on success it consumes input |
| LiteralProperties.ArrayDispatch | src/main/java/com/nigelsmall/geoff/reader/GeoffReader.java:116-175 | after '[' and whitespace, end of input is NullCharacter, and a character that is not ']' and starts no element is "Disarray" |
| LiteralProperties.EmptyArray | src/main/java/com/nigelsmall/geoff/reader/GeoffReader.java:118-122 | `[` whitespace `]` is the empty list, and reading ends after ']' |
| Literals.ReadValue | src/main/java/com/nigelsmall/geoff/reader/GeoffReader.java:395-431 | on success it consumes input |
| LiteralProperties.EmptyArrayIsNull | src/main/java/com/nigelsmall/geoff/reader/GeoffReader.java:400-403 | an empty array reads as null |
| LiteralProperties.NullLiteral | src/main/java/com/nigelsmall/geoff/reader/GeoffReader.java:421-426 | `null` reads as null, consuming 4 characters |
| LiteralProperties.ValueDispatch | src/main/java/com/nigelsmall/geoff/reader/GeoffReader.java:395-431 | each start character hands off to its reader; any other character is "Unexpected character"; end of input is NullCharacter; success implies a value start character |
| Entities.ReadArrow | src/main/java/com/nigelsmall/geoff/reader/GeoffReader.java:177-193 | "<-" is Incoming and "->" Outgoing, each consuming two characters; a lone "-" is Undirected, consuming one; '<' without '-' is "Unexpected character"; anything else is "Broken arrow" |
| Entities.TildeEnd | src/main/java/com/nigelsmall/geoff/reader/GeoffReader.java:219-221 | consumes exactly the run of tildes |
| Entities.ReadBoundary | src/main/java/com/nigelsmall/geoff/reader/GeoffReader.java:214-222 | succeeds exactly when four tildes are next, and then ends after the whole run of tildes; otherwise "Unexpected character" |
| Entities.ReadComment | src/main/java/com/nigelsmall/geoff/reader/GeoffReader.java:224-229 | consumes "/*" and at least one more character |
| Entities.ReadCommentText | src/main/java/com/nigelsmall/geoff/reader/GeoffReader.java:224-229 | without "/*" it is "Unexpected character"; otherwise the text up to where readUntil("*/") stops; CommentTooShort when that is under two characters, else it without its last two characters, trimmed |
| Entities.ReadName | src/main/java/com/nigelsmall/geoff/reader/GeoffReader.java:249-259 | the name ends inside the text; a bare name is exactly the text consumed |
| Entities.ReadNameCases | src/main/java/com/nigelsmall/geoff/reader/GeoffReader.java:249-259 | after '"' the name is exactly the string literal read there (ReadString); otherwise it is the whole maximal run of name characters at i (NameEnd), ending at the first other character |
| Entities.ReadNameShort | src/main/java/com/nigelsmall/geoff/reader/GeoffReader.java:249-259 | a name read is no longer than the text consumed for it |
| Entities.LabelsLoop | src/main/java/com/nigelsmall/geoff/reader/GeoffReader.java:242-245 | labels only accumulate, and the loop stops where no ':' follows |
| Entities.LabelsLoopStep | src/main/java/com/nigelsmall/geoff/reader/GeoffReader.java:242-245 | one round: ':' then a name, added to the set, or the name's error |
| Entities.LabelsLoopEnd | src/main/java/com/nigelsmall/geoff/reader/GeoffReader.java:242 | proof helper: without ':' next, the label loop stops |
| Entities.ReadLabels | src/main/java/com/nigelsmall/geoff/reader/GeoffReader.java:240-247 | stays in the input |
| Entities.ReadKeyValue | src/main/java/com/nigelsmall/geoff/reader/GeoffReader.java:231-238 | a key, ':' and a value, consuming input |
| Entities.NextPair | src/main/java/com/nigelsmall/geoff/reader/GeoffReader.java:344-349 | one comma round consumes input |
| Entities.PairsLoop | src/main/java/com/nigelsmall/geoff/reader/GeoffReader.java:344-349 | keys only accumulate |
| Entities.PairsLoopStep | src/main/java/com/nigelsmall/geoff/reader/GeoffReader.java:344-349 | one round puts the pair into the map, so a later key overwrites an earlier one; or its error ends the map |
| Entities.ReadPropertyMap | src/main/java/com/nigelsmall/geoff/reader/GeoffReader.java:337-354 | on success it consumes input |
| Entities.OptPropertyMap | src/main/java/com/nigelsmall/geoff/reader/GeoffReader.java:268-272 | a map is present exactly when '{' is next |
| Entities.OptLabels | src/main/java/com/nigelsmall/geoff/reader/GeoffReader.java:284-288 | labels are present exactly when ':' is next |
| Entities.NodeBody | src/main/java/com/nigelsmall/geoff/reader/GeoffReader.java:266-297 | the node has no name exactly when ')', ':' or '{' comes first |
| Entities.NamedNodeBody | src/main/java/com/nigelsmall/geoff/reader/GeoffReader.java:282-296 | the branch for a node that starts with a name: the node is named, and reading stays in the input |
| Entities.ReadNode | src/main/java/com/nigelsmall/geoff/reader/GeoffReader.java:261-302 | on success it consumes input |
| Entities.RelBoxRest | src/main/java/com/nigelsmall/geoff/reader/GeoffReader.java:364-375 | on success it consumes input |
| Entities.RelBoxTail | src/main/java/com/nigelsmall/geoff/reader/GeoffReader.java:366-375 | the box has the type read before, and reading consumes ']' |
| Entities.ReadRelationshipBoxAsWritten | src/main/java/com/nigelsmall/geoff/reader/GeoffReader.java:356-376 | the box with the name test as written; consumes input |
| Entities.ReadRelationshipBox | src/main/java/com/nigelsmall/geoff/reader/GeoffReader.java:356-376 | the box with the corrected name test; consumes input |
| EntityProperties.RelBoxNameIgnored | src/main/java/com/nigelsmall/geoff/reader/GeoffReader.java:359-363 | both versions agree when ':' follows '['. Otherwise the as-written one always fails, and the corrected one skips the name and reads the rest |
| EntityProperties.RelBoxNameAsWritten | src/main/java/com/nigelsmall/geoff/reader/GeoffReader.java:359-363 | `[r:KNOWS]` is rejected as written and reads as a KNOWS box when corrected |
| StringProperties.RunIs | src/main/java/com/nigelsmall/geoff/reader/GeoffReader.java:386 | the counted run is the number of backslashes ending the slice |
| StringProperties.EscapedAt | src/main/java/com/nigelsmall/geoff/reader/GeoffReader.java:386 | a span ends in an escaped quote exactly when it ends in a quote after an odd run of backslashes |
| StringProperties.SpanEndEncoded | src/main/java/com/nigelsmall/geoff/reader/GeoffReader.java:384-387 | from after an even run of backslashes, the span of an escaped body ends just after its closing quote |
| StringProperties.ReadStringEncoded | src/main/java/com/nigelsmall/geoff/reader/GeoffReader.java:380-393 | JSON-encoded text followed by anything reads back as exactly that string, consuming exactly its encoding |
| StringProperties.SpanEndAsWrittenOverruns | src/main/java/com/nigelsmall/geoff/reader/GeoffReader.java:384-387 | for the string of one backslash followed by `,"`, the test as written runs to offset 6; the corrected test stops at 4, where the text decodes to one backslash |
| Nodes.NewNode | src/main/java/com/nigelsmall/load2neo/AbstractNode.java:37-47 | named exactly when a name is given, and then it keeps that name; otherwise it gets the generated name; null labels are empty; the property map is present exactly when one is given; no hook |
| Nodes.LabelsMerged | src/main/java/com/nigelsmall/load2neo/AbstractNode.java:108-116 | null changes nothing; otherwise the label union; nothing else changes |
| Nodes.PropertiesMerged | src/main/java/com/nigelsmall/load2neo/AbstractNode.java:118-126 | null changes nothing; otherwise a null map becomes a copy of the incoming one, else incoming entries win and other keys keep their values; nothing else changes |
| Nodes.SeedNulls | src/main/java/com/nigelsmall/load2neo/AbstractNode.java:141-145 | every hook key is present; the absent ones map to null; existing entries are untouched |
| Nodes.SeedNullsStep | src/main/java/com/nigelsmall/load2neo/AbstractNode.java:141-145 | one more key is put with null exactly when it is not yet present |
| Nodes.HookSet | src/main/java/com/nigelsmall/load2neo/AbstractNode.java:128-149 | the hook label is added and recorded with the optional flag. With keys: the keys are recorded, the property map is present, each key is in it, absent ones are null, and existing values are kept. Without keys: the property map and keys are unchanged. The name is unchanged |
| Nodes.NodesMerged | src/main/java/com/nigelsmall/load2neo/AbstractNode.java:100-106 | takes the other's name, unions the labels, and overwrites with its properties when it has a map; the named flag and hook stay |
| Nodes.PropsField | src/main/java/com/nigelsmall/load2neo/AbstractNode.java:96-98 | getProperties: null exactly when the node has no property map |
| Nodes.MergeSelf | src/main/java/com/nigelsmall/load2neo/AbstractNode.java:100-106 | merging a node into itself changes nothing |
| Nodes.AbstractNode.constructor | src/main/java/com/nigelsmall/load2neo/AbstractNode.java:37-47 | the fields are NewNode of the arguments |
| Nodes.AbstractNode.MergeNode | src/main/java/com/nigelsmall/load2neo/AbstractNode.java:100-106 | the new fields are NodesMerged of the old fields and the other node's fields |
| Nodes.AbstractNode.MergeLabels | src/main/java/com/nigelsmall/load2neo/AbstractNode.java:108-116 | the new fields are LabelsMerged of the old fields |
| Nodes.AbstractNode.MergeProperties | src/main/java/com/nigelsmall/load2neo/AbstractNode.java:118-126 | the new fields are PropertiesMerged of the old fields |
| Nodes.AbstractNode.SetHook | src/main/java/com/nigelsmall/load2neo/AbstractNode.java:128-149 | the new fields are HookSet of the old fields; the key loop is proved against SeedNulls |
| Document.AnonName | src/main/java/com/nigelsmall/load2neo/AbstractNode.java:38-40 | a generated name is longer than the text being read and starts with '#'; so no name read from the text is a generated one (DocumentProperties.NodeNameNotAnon) |
| Document.MakeNode | src/main/java/com/nigelsmall/geoff/reader/GeoffReader.java:298-301 | the k-th node read has serial k and fields NewNode of the literal, with AnonName of the text's length and k as the name when the literal has none |
| Document.MergeDoc | src/main/java/com/nigelsmall/geoff/reader/GeoffReader.java:479 | a new name stores the node. Another object of a stored name is merged into the stored one. The very same object changes nothing. Other names and the relationships are untouched |
| Document.SegmentRels | src/main/java/com/nigelsmall/geoff/reader/GeoffReader.java:456-464 | "<-" gives other→node and "->" gives node→other, in that order; each has the box type and properties |
| Document.Segment | src/main/java/com/nigelsmall/geoff/reader/GeoffReader.java:452-465 | consumes input; the next node has the next serial; every relationship joins the two nodes |
| DocumentProperties.SegmentDirection | src/main/java/com/nigelsmall/geoff/reader/GeoffReader.java:452-465 | once both arrows, the box and the next node are read, "Lack of direction" exactly when both arrows are plain "-"; otherwise one relationship for an incoming first arrow plus one for an outgoing second arrow |
| Document.PathLoop | src/main/java/com/nigelsmall/geoff/reader/GeoffReader.java:451-466 | stops where no arrow follows; the node count only grows |
| Document.PathTurn | src/main/java/com/nigelsmall/geoff/reader/GeoffReader.java:452-465 | one segment then the loop: consumes input and reads at least one node |
| Document.PathLoopNew | src/main/java/com/nigelsmall/geoff/reader/GeoffReader.java:451-466 | a path only joins nodes read since it began |
| Document.AddRel | src/main/java/com/nigelsmall/geoff/reader/GeoffReader.java:475 | appends the relationship between the two names, and both names are then stored |
| Document.AddRels | src/main/java/com/nigelsmall/geoff/reader/GeoffReader.java:473-476 | appends one relationship per path relationship; comments unchanged |
| DocumentProperties.TrailedRel | src/main/java/com/nigelsmall/geoff/reader/GeoffReader.java:473-475 | the relationship between the path relationship's node names, with its type, and the trailing map merged over its properties (null keeps them) |
| DocumentProperties.TrailedRels | src/main/java/com/nigelsmall/geoff/reader/GeoffReader.java:473-476 | one TrailedRel per path relationship, in order |
| DocumentProperties.AddRelsAppends | src/main/java/com/nigelsmall/geoff/reader/GeoffReader.java:473-476 | the relationship loop appends TrailedRels after the relationships already there and keeps those |
| DocumentProperties.AttachTrailed | src/main/java/com/nigelsmall/geoff/reader/GeoffReader.java:472-480 | with relationships, each takes the trailing map and is appended; without, the last node takes the map and is merged into the subgraph |
| Document.PathStatement | src/main/java/com/nigelsmall/geoff/reader/GeoffReader.java:448-480 | consumes input and reads at least one node |
| DocumentProperties.PathStatementTrailed | src/main/java/com/nigelsmall/geoff/reader/GeoffReader.java:448-480 | fails as reading the path does; otherwise ends where the reading does and puts the trailing map as AttachTrailed says |
| Document.HookKeys | src/main/java/com/nigelsmall/geoff/reader/GeoffReader.java:491-496 | stops at '='; keys so far are kept in order |
| Document.HookKeysStep | src/main/java/com/nigelsmall/geoff/reader/GeoffReader.java:491-496 | one round: a name, whitespace, ':' (or "Unexpected character"), whitespace |
| Document.HookKeysEnd | src/main/java/com/nigelsmall/geoff/reader/GeoffReader.java:491 | proof helper: at '=' the key loop stops |
| Document.HookDoc | src/main/java/com/nigelsmall/geoff/reader/GeoffReader.java:505 | the hook is set on the entry stored under the node's name after the merge; nothing else changes |
| Document.HookHead | src/main/java/com/nigelsmall/geoff/reader/GeoffReader.java:481-503 | the head of a hook declaration consumes input |
| DocumentProperties.HookHeadReads | src/main/java/com/nigelsmall/geoff/reader/GeoffReader.java:481-487 | a hook head is ':', the label, ':' (each with whitespace around), then the tail with that label; a missing ':' is "Unexpected character" and a bad label is its error |
| DocumentProperties.HookTailReads | src/main/java/com/nigelsmall/geoff/reader/GeoffReader.java:488-502 | the keys are those the key loop reads; "=>" must follow, else "Unexpected character"; the hook is optional exactly when '?' follows "=>" |
| Document.HookStatement | src/main/java/com/nigelsmall/geoff/reader/GeoffReader.java:481-505 | consumes input and reads exactly one node |
| Document.CommentStatement | src/main/java/com/nigelsmall/geoff/reader/GeoffReader.java:506-507 | appends one comment and keeps nodes and relationships |
| Document.Statement | src/main/java/com/nigelsmall/geoff/reader/GeoffReader.java:448-513 | a boundary exactly at '~', and it changes nothing; any character outside "(:/~" is "Unexpected character" |
| Document.DocLoop | src/main/java/com/nigelsmall/geoff/reader/GeoffReader.java:447-515 | stays in the input; the node count only grows |
| Document.ReadSubgraph | src/main/java/com/nigelsmall/geoff/reader/GeoffReader.java:441-521 | stays in the input |
| DocumentProperties.BoundaryEndsLoop | src/main/java/com/nigelsmall/geoff/reader/GeoffReader.java:508-514 | at '~' the statement loop ends with the subgraph and node count before it, past the tildes and whitespace; fewer than four tildes are "Unexpected character" |
| DocumentProperties.TildeEndExtends | src/main/java/com/nigelsmall/geoff/reader/GeoffReader.java:219-221 | a run of tildes that reaches the end still ends there when the text goes on with something else |
| DocumentProperties.NodeNameNotAnon | src/main/java/com/nigelsmall/load2neo/AbstractNode.java:38-40 | the name of a node literal read from a text is never a generated name AnonName for that text, for any k: a quoted name such as "#0" stays a separate node |
| DocumentProperties.AfterBoundaryIgnored | src/main/java/com/nigelsmall/geoff/reader/GeoffReader.java:441-521 | nothing after a boundary that ends a document is read, unless it is one more tilde: the loop returns the same subgraph and count |
| Graph.NodeSource.Make | src/main/java/com/nigelsmall/geoff/reader/GeoffReader.java:298-301 | a fresh node whose serial and fields are MakeNode of the literal, the count and the text's length |
| Graph.AbstractRelationship.MergeProperties | src/main/java/com/nigelsmall/geoff/reader/GeoffReader.java:474 | null keeps the properties; otherwise they are overwritten |
| Graph.Subgraph.constructor | src/main/java/com/nigelsmall/geoff/reader/GeoffReader.java:444 | the empty subgraph |
| Graph.Subgraph.Order | src/main/java/com/nigelsmall/geoff/reader/GeoffReader.java:519 | the number of node names |
| Graph.Subgraph.Size | src/main/java/com/nigelsmall/geoff/reader/GeoffReader.java:519 | the number of relationships |
| Graph.Subgraph.MergeNode | src/main/java/com/nigelsmall/geoff/reader/GeoffReader.java:479 | the value becomes MergeDoc; returns the stored node of the name (the existing one, or node when new); the map changes at that name only |
| Graph.Subgraph.SetHookOn | src/main/java/com/nigelsmall/geoff/reader/GeoffReader.java:505 | the stored node of the name takes HookSet; nothing else changes |
| Graph.Subgraph.AddComment | src/main/java/com/nigelsmall/geoff/reader/GeoffReader.java:507 | appends the comment; nothing else changes |
| Graph.Subgraph.AddRelationship | src/main/java/com/nigelsmall/geoff/reader/GeoffReader.java:475 | the value becomes AddRel: both nodes merged, then the relationship appended |
| Graph.AddRelUnfolds | src/main/java/com/nigelsmall/geoff/reader/GeoffReader.java:475 | proof helper: unfolds AddRel |
| Build.OverwriteTwice | src/main/java/com/nigelsmall/geoff/reader/GeoffReader.java:474 | merging the same properties twice equals merging them once |
| Build.AddRelationships | src/main/java/com/nigelsmall/geoff/reader/GeoffReader.java:472-476 | the subgraph value becomes AddRels of the path relationships with the trailing properties, so each appended relationship carries the trailing map merged over its own properties, as DocumentProperties.AddRelsAppends states |
| Build.MergeLast | src/main/java/com/nigelsmall/geoff/reader/GeoffReader.java:477-480 | a path without relationships: its node takes the properties and is merged, as Attach says |
| Build.MergeHook | src/main/java/com/nigelsmall/geoff/reader/GeoffReader.java:505 | the subgraph value becomes HookDoc |
| Reader.GeoffReader.constructor | src/main/java/com/nigelsmall/geoff/reader/GeoffReader.java:46-53 | a reader at the start of the text, nothing peeked |
| Reader.GeoffReader.Read | src/main/java/com/nigelsmall/geoff/reader/GeoffReader.java:55-67 | returns the next character and advances; UnexpectedEndOfData at the end |
| Reader.GeoffReader.Peek | src/main/java/com/nigelsmall/geoff/reader/GeoffReader.java:69-78 | the next character or null, without moving; the peeked slot is filled |
| Reader.GeoffReader.ReadChar | src/main/java/com/nigelsmall/geoff/reader/GeoffReader.java:80-86 | consumes c exactly when it is next |
| Reader.GeoffReader.ReadUntil | src/main/java/com/nigelsmall/geoff/reader/GeoffReader.java:88-96 | returns the text up to where UntilEnd says, and ends there |
| Reader.GeoffReader.ReadUntilString | src/main/java/com/nigelsmall/geoff/reader/GeoffReader.java:98-105 | returns the text up to where UntilStrEnd says |
| Reader.GeoffReader.NextCharEquals | src/main/java/com/nigelsmall/geoff/reader/GeoffReader.java:107-110 | true exactly when c is next; does not move |
| Reader.GeoffReader.HasMore | src/main/java/com/nigelsmall/geoff/reader/GeoffReader.java:112-114 | true exactly when input is left |
| Reader.GeoffReader.ReadWhitespace | src/main/java/com/nigelsmall/geoff/reader/GeoffReader.java:433-439 | returns the whitespace run WsEnd says, and ends there |
| Reader.GeoffReader.ReadString | src/main/java/com/nigelsmall/geoff/reader/GeoffReader.java:380-393 | agrees with Literals.ReadString: same value, same end, same error |
| Reader.GeoffReader.ReadStringSpan | src/main/java/com/nigelsmall/geoff/reader/GeoffReader.java:381-387 | the loop captures the span SpanEnd says |
| Reader.GeoffReader.ReadBoolean | src/main/java/com/nigelsmall/geoff/reader/GeoffReader.java:195-212 | agrees with Literals.ReadBoolean |
| Reader.GeoffReader.ReadDigits | src/main/java/com/nigelsmall/geoff/reader/GeoffReader.java:309-311 | the digit loop ends where DigitsEnd says, or fails as it does |
| Reader.GeoffReader.ReadMantissa | src/main/java/com/nigelsmall/geoff/reader/GeoffReader.java:307-318 | agrees with Literals.ScanMantissa, returning the text gathered |
| Reader.GeoffReader.ReadExponent | src/main/java/com/nigelsmall/geoff/reader/GeoffReader.java:319-327 | agrees with Literals.ScanExponent, returning the text gathered |
| Reader.GeoffReader.ReadNumber | src/main/java/com/nigelsmall/geoff/reader/GeoffReader.java:304-335 | agrees with Literals.ReadNumber |
| Reader.GeoffReader.ReadArrayKind | src/main/java/com/nigelsmall/geoff/reader/GeoffReader.java:123-175 | equals Literals.ArrayKind at the cursor, so the Disarray and NullCharacter cases are as stated there; does not move |
| Reader.GeoffReader.ReadItems | src/main/java/com/nigelsmall/geoff/reader/GeoffReader.java:121-171 | agrees with Literals.ArrayItems |
| Reader.GeoffReader.ReadMoreItems | src/main/java/com/nigelsmall/geoff/reader/GeoffReader.java:124-129 | the comma loop agrees with Literals.ItemsLoop |
| Reader.GeoffReader.ReadArray | src/main/java/com/nigelsmall/geoff/reader/GeoffReader.java:116-176 | agrees with Literals.ReadArray |
| Reader.GeoffReader.ReadValue | src/main/java/com/nigelsmall/geoff/reader/GeoffReader.java:395-431 | agrees with Literals.ReadValue |
| Reader.GeoffReader.ReadNumberAhead | src/main/java/com/nigelsmall/geoff/reader/GeoffReader.java:417 | true at '-'; NullCharacter at the end of input; otherwise whether a digit is next |
| Reader.GeoffReader.ReadNull | src/main/java/com/nigelsmall/geoff/reader/GeoffReader.java:421-426 | consumes `null` as null; "Unexpected character" otherwise |
| Reader.GeoffReader.ReadArrow | src/main/java/com/nigelsmall/geoff/reader/GeoffReader.java:177-193 | agrees with Entities.ReadArrow: the arrow, its length and "Broken arrow" as stated there |
| Reader.GeoffReader.ReadBoundary | src/main/java/com/nigelsmall/geoff/reader/GeoffReader.java:214-222 | ends where Entities.ReadBoundary says, or fails as it does: four tildes are required |
| Reader.GeoffReader.ReadComment | src/main/java/com/nigelsmall/geoff/reader/GeoffReader.java:224-229 | agrees with Entities.ReadComment, whose text and CommentTooShort cases Entities.ReadCommentText states |
| Reader.GeoffReader.ReadName | src/main/java/com/nigelsmall/geoff/reader/GeoffReader.java:249-259 | agrees with Entities.ReadName: the string literal after '"', else the maximal run of name characters (Entities.ReadNameCases) |
| Reader.GeoffReader.ReadLabels | src/main/java/com/nigelsmall/geoff/reader/GeoffReader.java:240-247 | agrees with Entities.ReadLabels |
| Reader.GeoffReader.ReadKeyValue | src/main/java/com/nigelsmall/geoff/reader/GeoffReader.java:231-238 | agrees with Entities.ReadKeyValue |
| Reader.GeoffReader.ReadMorePairs | src/main/java/com/nigelsmall/geoff/reader/GeoffReader.java:344-349 | the comma loop agrees with Entities.PairsLoop |
| Reader.GeoffReader.ReadPropertyMap | src/main/java/com/nigelsmall/geoff/reader/GeoffReader.java:337-354 | agrees with Entities.ReadPropertyMap |
| Reader.GeoffReader.ReadNodeBody | src/main/java/com/nigelsmall/geoff/reader/GeoffReader.java:266-297 | agrees with Entities.NodeBody |
| Reader.GeoffReader.ReadNamedNodeBody | src/main/java/com/nigelsmall/geoff/reader/GeoffReader.java:282-296 | agrees with Entities.NamedNodeBody |
| Reader.GeoffReader.ReadNodeLit | src/main/java/com/nigelsmall/geoff/reader/GeoffReader.java:261-302 | agrees with Entities.ReadNode |
| Reader.GeoffReader.ReadRelationshipBox | src/main/java/com/nigelsmall/geoff/reader/GeoffReader.java:356-376 | agrees with Entities.ReadRelationshipBox |
| Reader.GeoffReader.ReadNode | src/main/java/com/nigelsmall/geoff/reader/GeoffReader.java:261-302 | on success, a new AbstractNode whose fields are MakeNode of the literal read |
| Reader.GeoffReader.ReadSegment | src/main/java/com/nigelsmall/geoff/reader/GeoffReader.java:452-465 | agrees with Document.Segment, including "Lack of direction" as DocumentProperties.SegmentDirection states; the relationships made show its path relationships |
| Reader.GeoffReader.ReadPath | src/main/java/com/nigelsmall/geoff/reader/GeoffReader.java:451-466 | the segment loop agrees with Document.PathLoop |
| Reader.GeoffReader.ReadPathParts | src/main/java/com/nigelsmall/geoff/reader/GeoffReader.java:449-471 | agrees with Document.PathParts |
| Reader.GeoffReader.ReadPathTail | src/main/java/com/nigelsmall/geoff/reader/GeoffReader.java:451-471 | after the first node: agrees with Document.PathTail, and every object it creates but the first node is new |
| Reader.GeoffReader.ReadTrailingMap | src/main/java/com/nigelsmall/geoff/reader/GeoffReader.java:467-471 | readWhitespace, then agrees with Entities.OptPropertyMap where the whitespace ends |
| Reader.GeoffReader.ReadPathStatement | src/main/java/com/nigelsmall/geoff/reader/GeoffReader.java:448-480 | subgraph value, cursor and node count follow Document.PathStatement, so the trailing map goes as DocumentProperties.PathStatementTrailed states |
| Reader.GeoffReader.ReadHookKeys | src/main/java/com/nigelsmall/geoff/reader/GeoffReader.java:489-496 | the key loop agrees with Document.HookKeys |
| Reader.GeoffReader.ReadHookHead | src/main/java/com/nigelsmall/geoff/reader/GeoffReader.java:481-503 | agrees with Document.HookHead: label, keys and optional flag as DocumentProperties.HookHeadReads and HookTailReads state |
| Reader.GeoffReader.ReadHookStatement | src/main/java/com/nigelsmall/geoff/reader/GeoffReader.java:481-505 | subgraph value, cursor and count follow Document.HookStatement |
| Reader.GeoffReader.ReadCommentStatement | src/main/java/com/nigelsmall/geoff/reader/GeoffReader.java:506-507 | follows Document.CommentStatement |
| Reader.GeoffReader.ReadStatement | src/main/java/com/nigelsmall/geoff/reader/GeoffReader.java:448-513 | follows Document.Statement |
| Reader.GeoffReader.ReadSubgraph | src/main/java/com/nigelsmall/geoff/reader/GeoffReader.java:441-521 | returns a subgraph whose value, end and node count are Document.ReadSubgraph's, or its error; a boundary stops it as DocumentProperties.BoundaryEndsLoop states |
| GraphStore.FindIn | src/main/java/com/nigelsmall/load2neo/NeoLoader.java:97 | exactly the nodes with the label whose key holds the value; a null value asks for the key to be absent |
| GraphStore.Store.CreateNode | src/main/java/com/nigelsmall/load2neo/NeoLoader.java:104 | appends a node with no labels or properties and returns its id |
| GraphStore.Store.AddLabel | src/main/java/com/nigelsmall/load2neo/NeoLoader.java:144 | adds the label to that node only |
| GraphStore.Store.SetProperty | src/main/java/com/nigelsmall/load2neo/NeoLoader.java:159 | puts a non-null value under the key of that entity only |
| GraphStore.Store.CreateRelationshipTo | src/main/java/com/nigelsmall/load2neo/NeoLoader.java:129 | appends a relationship of the type between the two nodes, without properties |
| Loader.Written | src/main/java/com/nigelsmall/load2neo/NeoLoader.java:154-162 | null writes nothing; non-null entries are written; no other key appears or changes; no null is ever stored |
| Loader.WrittenStep | src/main/java/com/nigelsmall/load2neo/NeoLoader.java:157-161 | one more entry is written exactly when its value is not null |
| Loader.LoadedIsFound | src/main/java/com/nigelsmall/load2neo/NeoLoader.java:86-109 | a loaded unique node that carries its unique label is found by that label, its key and its value |
| Loader.UnloadableAt | src/main/java/com/nigelsmall/load2neo/NeoLoader.java:90-95 | loadNode throws for a node exactly when it is unique and its property map is null |
| Loader.NoneUnloadable | src/main/java/com/nigelsmall/load2neo/NeoLoader.java:62-68 | when every node was loaded, none is a unique node with a null property map |
| Loader.LoadedAtFacts | src/main/java/com/nigelsmall/load2neo/NeoLoader.java:86-109 | after loadNode the store has only grown, a non-unique node gets a new node, and the store node carries its labels and non-null property keys |
| Loader.NamedStep | src/main/java/com/nigelsmall/load2neo/NeoLoader.java:64-67 | a node joins the named map exactly when it is named |
| Loader.ResolvedStart | src/main/java/com/nigelsmall/load2neo/NeoLoader.java:55-56 | before the loop nothing is named and Resolved holds |
| Loader.ResolvedStep | src/main/java/com/nigelsmall/load2neo/NeoLoader.java:62-68 | loading one more node keeps Resolved |
| Loader.NeoLoader.constructor | src/main/java/com/nigelsmall/load2neo/NeoLoader.java:38-41 | a loader on the given store |
| Loader.NeoLoader.Load | src/main/java/com/nigelsmall/load2neo/NeoLoader.java:49-77 | every node loaded is resolved (Resolved). A unique node with a null property map stops it with NullProperties before any relationship. Otherwise every node is loaded, and it succeeds exactly when every relationship's names have nodes; it then returns the named nodes and creates one store relationship per relationship, in order, with its non-null properties. Existing relationships are kept |
| Loader.NeoLoader.LoadNodes | src/main/java/com/nigelsmall/load2neo/NeoLoader.java:62-68 | fails exactly when some unique node has a null property map, naming one; otherwise one store node per name. What was loaded meets Resolved; named ones are also in the second map; no relationship is created |
| Loader.NeoLoader.LoadEntry | src/main/java/com/nigelsmall/load2neo/NeoLoader.java:62-67 | one round of the node loop: throws exactly for a unique node with a null property map, changing nothing; otherwise the name is recorded, Resolved and Named are kept |
| Loader.NeoLoader.LoadRelationships | src/main/java/com/nigelsmall/load2neo/NeoLoader.java:70-72 | as in Load, for the relationship loop; stops at the first missing name |
| Loader.NeoLoader.LoadNode | src/main/java/com/nigelsmall/load2neo/NeoLoader.java:86-109 | a unique node with a null property map throws (NullProperties) before the store changes. Otherwise LoadedAt: a found node when unique and found, else a new one, with labels added and properties written; the lookup then finds it when the node carries its unique label |
| Loader.NeoLoader.LoadRelationship | src/main/java/com/nigelsmall/load2neo/NeoLoader.java:111-131 | creates the relationship with its non-null properties exactly when both names have nodes; otherwise nothing changes |
| Loader.NeoLoader.AddLabels | src/main/java/com/nigelsmall/load2neo/NeoLoader.java:140-146 | the node gains exactly the labels; null adds none; nothing else changes |
| Loader.NeoLoader.AddProperties | src/main/java/com/nigelsmall/load2neo/NeoLoader.java:154-162 | the entity's properties become Written of the old ones; nothing else changes |

## Left out

- Reader I/O: `java.io.Reader` and `BufferedReader` become an in-memory `seq<char>`, and an IOException cannot occur.
- Logging and timing in readSubgraph and load (the logger and `System.currentTimeMillis`) are not modelled.
- Jackson: readString decodes its captured span with a strict JSON string decoder (`JsonString.Decode`). Jackson's leniency is not modelled, and neither is its pairing of `\u` surrogate escapes, which the decoder rejects.
- Double values: `Double.parseDouble` and `Number.doubleValue` are not computed. A double is its literal text, or the integer it was widened from. Only the grammar parseDouble accepts (a digit in the mantissa, a digit in the exponent) is checked.
- Character classes: `Character.isWhitespace`, `isLetterOrDigit` and `isDigit` are limited to ASCII. Non-ASCII letters, digits and separators are not recognised.
- NullPointerException: `Character.isDigit(peek())` at the end of input is the error NullCharacter.
- NullPointerException in loadNode: `getProperties().containsKey` on a unique node whose property map is null (NeoLoader.java:93) is the error `NullProperties(name)`, raised before the store changes; load stops there with the nodes already loaded kept.
- StringIndexOutOfBoundsException: readComment's substring on fewer than two characters is the error CommentTooShort.
- AbstractNode.toString is left out: it only renders text.
- UUID: the random name given to an unnamed node is `Document.AnonName(|src|, k)`, with k the number of nodes read so far: '#' repeated one more time than the text is long, then k. It is unique in the run, and it is longer than any name the text can spell, so it never clashes with a named node (`DocumentProperties.NodeNameNotAnon`). The randomness of a UUID is not modelled.
- Null collections: AbstractNode's null label set is the same as an empty one, since mergeLabels, addLabels and the lookup treat both alike. A null property map is modelled (`NodeVal.hasProps`, `AbstractNode.properties` an `Option`): loadNode of a unique node throws on it, as `Loader.NeoLoader.LoadNode` states.
- Reader.GeoffReader.ReadStringSpan, Reader.GeoffReader.ReadString, Reader.GeoffReader.ReadRelationshipBox, Literals.SpanEnd, Literals.ReadString and Entities.ReadRelationshipBox follow the corrected end-of-string test (GeoffReader.java:386) and the corrected name test of a relationship box (GeoffReader.java:359), not the code as written; so does every reader built on them, up to Document.ReadSubgraph and Reader.GeoffReader.ReadSubgraph. The code as written is modelled by Literals.SpanEndAsWritten and Entities.ReadRelationshipBoxAsWritten, and "## Findings" shows where they differ.
- Subgraph and AbstractRelationship are not part of this model's sources. `Graph.Subgraph` (node map, relationships, comments, mergeNode, addRelationship, addComment, order, size) and `Graph.AbstractRelationship` are the minimal behaviour readSubgraph and load rely on. Subgraph.mergeNode is taken to merge a node into the stored node of its name and to return the stored node.
- Uniqueness: NeoLoader calls `isUnique`, `getUniqueLabel` and `getUniqueKey`, which the AbstractNode source does not define. The loader takes them as an input map from node names to a label and key.
- Loader.NeoLoader.LoadRelationship models only the plain branch (NeoLoader.java:127-131). The CREATE UNIQUE Cypher branch (114-126) needs a query engine and is left out.
- Loader.NeoLoader.LoadRelationship: a missing node name makes Java throw a NullPointerException at `createRelationshipTo`. The model reports this as `NullPointer(k)` and stops, keeping what was already created. It does not model which of the two lookups throws.
- HashMap iteration order: the order in which load visits the nodes is a nondeterministic choice (`:|`), and so is the "first" node findNodesByLabelAndProperty yields. The contracts hold for every order.
- Neo4j: the database is `GraphStore.Store`, which only has the calls the loader makes. A lookup for a null value is taken to find the nodes without that key. Transactions, indexes and Cypher are left out.
- Literals.TrailingBackslashes states only its bound in its own contract. What it counts is stated by StringProperties.RunIs.
- AllTheThingsResource (the HTTP endpoint) and the tests are left out: they are a web front end and unit tests around the modelled code.

## Findings

| source | as written | input that shows it | evidently intended | confidence | as-written member | corrected member |
|---|---|---|---|---|---|---|
| src/main/java/com/nigelsmall/geoff/reader/GeoffReader.java:386 | the string goes on while the text read ends with a backslash and a quote, so a closing quote after an escaped backslash (`\\"`) is taken as escaped | `"\\",` followed by `"`: the JSON string of one backslash, then `,"` | a quote ends the string unless an odd run of backslashes precedes it, so JSON-written text reads back as written | not executed | StringProperties.SpanEndAsWrittenOverruns | StringProperties.ReadStringEncoded |
| src/main/java/com/nigelsmall/geoff/reader/GeoffReader.java:359 | the relationship name is skipped only when ':' is next, where there is no name; a box with a name then fails at `readChar(':')` | `[r:KNOWS]` | the comment on line 360 says to read and ignore the name when present, i.e. when ':' is not next | not executed | EntityProperties.RelBoxNameAsWritten | EntityProperties.RelBoxNameIgnored |
