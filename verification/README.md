# Taboola assessment: a JSON reader, a search tree and two tree codecs, in Dafny

The repository holds two small Java projects. This model covers the core of each.

**JSONParser** (`Main.java`) is a hand-written recursive-descent reader.

- It trims the document and reads one value from the start.
- It dispatches on the first significant character to six productions: object, array, string, number, boolean and null. Objects and arrays call back into the value production.
- It builds a dynamic value tree of `HashMap`, `ArrayList`, `String`, `Integer`, `Double`, `Boolean` and `null`.
- `parse` casts the root to a `Map`.

Here every production is a pure function of the trimmed text and a cursor. Each returns the value it built and the cursor just past it, or the exception it raises as an `Error` kind (modules `JsonText`, `JsonNumber`, `JsonParser`).

Three groups of lemmas pin down what the reader accepts:

- The round trip (modules `JsonDocument`, `JsonRoundTrip`, `JsonValues`). Compact documents are written by a reference writer; the repository has no writer, and `Write` exists only to state this property. The reader reads every well-formed document back as the value it denotes, wherever it stands in a larger text, provided it is followed by the end of the text or a character that cannot continue a number (a written `1` followed by `2` reads as `12`). Every value the reader produces is `Readable` (no `"` in a key or string, a float lexeme of the accepted form), and every readable value has such a document.
- Whitespace between tokens (`JsonLayout`) and the test document of `main`, laid out over seven lines as the source builds it (`JsonSample`).
- The code's leniencies (`JsonLeniency`): optional and trailing commas, the required colon, unclosed containers, and text after the root.

**TreeSerializer** has three parts.

- `BinaryTree` is insertion into a binary search tree that ignores duplicates (module `BinaryTree`, over `int` with `Integer.compareTo`).
- `BinaryTreeSerializer` is a pre-order codec (module `TreeCodec`). It writes `value,` per node and `null,` per empty child, and reads the tokens back from `String.split(",")`. Values are their `toString` texts, so the codec works on trees of strings.
- `CyclicTreeSerializer` runs the same walk over a graph of node objects, with a visited set that is never cleared (module `CyclicCodec`).
  - Node identity is reference identity, so nodes are ids in a finite heap map `map<Id, Cell>`.
  - Cycles and shared nodes are both expressible.
  - The finite "unfolding" of the graph from the root relates the walk to the plain codec.

Where the reader departs from JSON as RFC 8259 defines it, the model follows the code:

- strings have no escape sequences, so a backslash is copied and the first `"` ends the string;
- integers are 32-bit, because `Integer.parseInt` is used; a number may have leading zeros, and a point may open or close its digits;
- whitespace between tokens is `Character.isWhitespace`, not the four characters of section 2 of RFC 8259, and the document is trimmed of every character up to U+0020 first;
- commas between members and elements are optional, and a trailing one is accepted;
- the first character of an object key is skipped without being checked;
- anything after the root value is ignored, and the root must be an object or `null`.

Errors are modelled by kind. A missing closing quote fails with the end-of-input error of the `charAt` past the end. There is no nesting limit, and errors carry no offset.

## Model

| member | source | states |
|---|---|---|
| JsonText.WhitespaceClasses | JSONParser/src/main/java/org/example/Main.java:55 | `Character.isWhitespace` holds for the ASCII layout controls and the Unicode separators but not for other controls, the non-breaking spaces, NEL or the byte-order mark; it and the set `trim` removes each have members the other lacks |
| JsonText.SkipWhitespace | JSONParser/src/main/java/org/example/Main.java:54-58 | the cursor never moves back or past the end, and stops only at the end or at a character that is not whitespace |
| JsonText.SkipWhitespaceRun | JSONParser/src/main/java/org/example/Main.java:54-58 | every character skipped is whitespace, so the result is the first significant index at or after the start |
| JsonText.SkipWhitespaceTo | JSONParser/src/main/java/org/example/Main.java:54-58 | conversely, a whitespace run ended by a significant character or the end of the text is skipped exactly |
| JsonText.Trim | JSONParser/src/main/java/org/example/Main.java:14-17 | `trim` keeps a text no longer than the input whose first and last characters are above U+0020, and gives the empty text exactly when every character is at most U+0020 |
| JsonText.TrimPadding | JSONParser/src/main/java/org/example/Main.java:14-17 | trimming a text with significant ends wrapped in any trimmable padding gives that text back |
| JsonText.TrimIdempotent | JSONParser/src/main/java/org/example/Main.java:14-17 | trimming twice is trimming once |
| JsonNumber.NumberEnd | JSONParser/src/main/java/org/example/Main.java:75-77 | the number loop stops at the end of the text or at the first character that is not a digit, `.` or `-` |
| JsonNumber.NumberEndAt | JSONParser/src/main/java/org/example/Main.java:75-77 | a run of number characters ending where numbers stop is exactly what the loop consumes |
| JsonNumber.NumberEndRun | JSONParser/src/main/java/org/example/Main.java:75-77 | everything the loop consumes is a digit, `.` or `-` |
| JsonNumber.ParseIntDigits | JSONParser/src/main/java/org/example/Main.java:82 | whatever `Integer.parseInt` accepts is, after the sign, leading zeros followed by the decimal printing of the magnitude it returns; a negative result has a minus sign and a positive one none |
| JsonNumber.DoubleLexemeHasShape | JSONParser/src/main/java/org/example/Main.java:79-80 | a run with a point that the number production accepts is an optional minus sign, digits, the point and digits, with a digit on at least one side |
| JsonNumber.ShapeIsDoubleLexeme | JSONParser/src/main/java/org/example/Main.java:79-80 | conversely, every run of that form is accepted |
| JsonNumber.DoubleLexemeAccepts | JSONParser/src/main/java/org/example/Main.java:80 | `3.14`, `-0.5`, `.5` and `5.` are accepted |
| JsonNumber.DoubleLexemeRejects | JSONParser/src/main/java/org/example/Main.java:80 | `.`, `-.`, `1.2.3` and `1.-2` are rejected |
| JsonNumber.ParseShowInt | JSONParser/src/main/java/org/example/Main.java:82 | `Integer.parseInt` gives back every `int` from its decimal text |
| JsonNumber.ParseIntRejectsStrayMinus | JSONParser/src/main/java/org/example/Main.java:82 | a lone `-` and `1-2` are rejected |
| JsonNumber.ParseIntRejectsOverflow | JSONParser/src/main/java/org/example/Main.java:82 | 2147483648, one past the largest `int`, is rejected |
| JsonNumber.ParseIntAcceptsMinimum | JSONParser/src/main/java/org/example/Main.java:82 | -2147483648 is accepted, so the range is asymmetric |
| JsonNumber.ParseIntLeadingZeros | JSONParser/src/main/java/org/example/Main.java:82 | `007` reads as 7 |
| JsonParser.ParseString | JSONParser/src/main/java/org/example/Main.java:61-70 | a string ends just past its closing quote, its text is exactly the characters between the quotes, and the only failure is running off the end |
| JsonParser.ParseStringReads | JSONParser/src/main/java/org/example/Main.java:61-70 | reading a string succeeds if and only if a `"` follows the opening character, and the text holds no `"` |
| JsonParser.ParseNumber | JSONParser/src/main/java/org/example/Main.java:73-84 | a number advances the cursor, yields an integer or a float, stops where number characters stop, and fails only as a malformed number |
| JsonParser.ParseNumberReads | JSONParser/src/main/java/org/example/Main.java:73-84 | the lexeme is the maximal run; it is an integer exactly when it has no point, with the lexeme's signed value; a float keeps its lexeme; it fails exactly when the lexeme is not a number of its kind |
| JsonParser.BooleanPrefix | JSONParser/src/main/java/org/example/Main.java:133-142 | succeeds exactly when `true` or `false` is a prefix of the remaining text; the value is true exactly when `true` is that prefix, and the text consumed is exactly that word; otherwise a literal error |
| JsonParser.NullPrefix | JSONParser/src/main/java/org/example/Main.java:145-151 | succeeds exactly when `null` is a prefix of the remaining text, and the text consumed is exactly `null`; otherwise a literal error |
| JsonParser.ParseValue | JSONParser/src/main/java/org/example/Main.java:25-46 | a successful value ends strictly past the start and within the text |
| JsonParser.ParseValueShape | JSONParser/src/main/java/org/example/Main.java:25-51 | the production is chosen by the first significant character alone; end of text and any other character are errors; the value's shape matches that character, and it ends on its closing character |
| JsonParser.ParseObject | JSONParser/src/main/java/org/example/Main.java:92-113 | an object yields a map and ends just past a `}` |
| JsonParser.ParseMember | JSONParser/src/main/java/org/example/Main.java:97-104 | one member of the loop ends past its start and within the text |
| JsonParser.ParseMembers | JSONParser/src/main/java/org/example/Main.java:96-111 | the member loop, whatever it has read, succeeds only with a map and just past a `}` |
| JsonParser.ParseArray | JSONParser/src/main/java/org/example/Main.java:116-130 | an array yields a list and ends just past a `]` |
| JsonParser.ParseElements | JSONParser/src/main/java/org/example/Main.java:120-128 | the element loop succeeds only with a list and just past a `]` |
| JsonParser.ElementsClose | JSONParser/src/main/java/org/example/Main.java:120-129 | a `]` ends the loop with the elements read so far, in order |
| JsonParser.ElementsStep | JSONParser/src/main/java/org/example/Main.java:121-126 | an element is appended, then a comma is skipped if present and is never required |
| JsonParser.MembersClose | JSONParser/src/main/java/org/example/Main.java:96-112 | a `}` ends the loop with the map built so far |
| JsonParser.MembersStep | JSONParser/src/main/java/org/example/Main.java:104-109 | a member is put into the map, replacing an earlier value for its key, then a comma is skipped if present and is never required |
| JsonParser.MemberParts | JSONParser/src/main/java/org/example/Main.java:97-104 | a key, a colon and a value read as one member |
| JsonParser.Parse | JSONParser/src/main/java/org/example/Main.java:14-22 | `parse` succeeds exactly when the reader reads an object or `null` from the trimmed text, and returns that object's map; with whitespace skipped to the first significant character: no such character is an end-of-input error; a map result means that character is `{`; a null result means `null` starts there; any other value start (string, number, array, boolean) is an error |
| JsonRoundTrip.StringAt | JSONParser/src/main/java/org/example/Main.java:61-70 | a quoted text without inner quotes is read back as that text, advancing its length plus two |
| JsonRoundTrip.IntParses | JSONParser/src/main/java/org/example/Main.java:73-84 | the decimal text of any `int` is read back as that integer |
| JsonRoundTrip.FloatParses | JSONParser/src/main/java/org/example/Main.java:79-80 | a float lexeme is read back verbatim |
| JsonRoundTrip.LiteralParses | JSONParser/src/main/java/org/example/Main.java:133-151 | `true`, `false` and `null` are read back as their values |
| JsonRoundTrip.StrParses | JSONParser/src/main/java/org/example/Main.java:33-34 | a string document is read back as its text |
| JsonRoundTrip.ArrayParses | JSONParser/src/main/java/org/example/Main.java:116-130 | an array document is read back as the list of its elements' values |
| JsonRoundTrip.ObjectParses | JSONParser/src/main/java/org/example/Main.java:92-113 | an object document is read back as its members put into a map in order |
| JsonRoundTrip.ItemsParse | JSONParser/src/main/java/org/example/Main.java:120-127 | the element loop reads the remaining elements and the `]`, appending their values to those read so far |
| JsonRoundTrip.MembersParse | JSONParser/src/main/java/org/example/Main.java:96-110 | the member loop reads the remaining members and the `}`, putting them into the map built so far |
| JsonRoundTrip.MemberReads | JSONParser/src/main/java/org/example/Main.java:97-104 | one member is read back as its key and its value's denotation |
| JsonRoundTrip.WriteParses | JSONParser/src/main/java/org/example/Main.java:25-46 | every well-formed document, anywhere in a text where it is followed by the end of the text or a character that cannot continue a number, is read back as its denotation with the cursor just past it |
| JsonValues.ParsedReadable | JSONParser/src/main/java/org/example/Main.java:25-46 | every value `parseValue` returns is readable: no key or string holds a `"`, and every float lexeme has the accepted form |
| JsonValues.MemberReadable | JSONParser/src/main/java/org/example/Main.java:97-104 | a member's key holds no `"` and its value is readable |
| JsonValues.MembersReadable | JSONParser/src/main/java/org/example/Main.java:96-111 | the member loop, started on a readable map, returns a readable object |
| JsonValues.ElementsReadable | JSONParser/src/main/java/org/example/Main.java:120-128 | the element loop, started on readable elements, returns a readable list |
| JsonValues.ValueReadsBack | JSONParser/src/main/java/org/example/Main.java:25-46 | every readable value is read back from its document's text, wherever that text stands, provided it is followed by the end of the text or a character that cannot continue a number |
| JsonValues.ParsedReadsBack | JSONParser/src/main/java/org/example/Main.java:25-46 | every value the reader produces from any text is read back from its document's text, wherever that text is followed by the end of the text or a character that cannot continue a number |
| JsonValues.ParseDocument | JSONParser/src/main/java/org/example/Main.java:14-22 | `parse` of an object document padded with trimmable characters returns the map it denotes, where a repeated key keeps its last value |
| JsonValues.ParseWritten | JSONParser/src/main/java/org/example/Main.java:14-22 | `parse` of any readable object's document, padded, returns that object |
| JsonLayout.GapAt | JSONParser/src/main/java/org/example/Main.java:54-58 | a whitespace run before a significant character is skipped in one step |
| JsonLayout.ValueAfterGap | JSONParser/src/main/java/org/example/Main.java:26 | a value after whitespace reads as the value at its first character |
| JsonLayout.MemberAt | JSONParser/src/main/java/org/example/Main.java:97-104 | a member with whitespace around its colon reads as its key and value |
| JsonLayout.MembersCommaGap | JSONParser/src/main/java/org/example/Main.java:104-109 | a member, a comma and whitespace continue the loop at the next member with the map updated |
| JsonLayout.MembersGapClose | JSONParser/src/main/java/org/example/Main.java:104-111 | a member, whitespace and `}` end the loop with the map updated |
| JsonSample.SampleReads | JSONParser/src/main/java/org/example/Main.java:155-162 | the seven-line sample text, stated line by line, parses to the expected two-level map |
| JsonSample.SampleParses | JSONParser/src/main/java/org/example/Main.java:154-166 | the sample parses to a map with `debug` "on", `window.title` "sample" and `window.size` the integer 500, the three assertions of `main` |
| JsonSample.LastKeyWins | JSONParser/src/main/java/org/example/Main.java:104 | `{"a":1,"a":2}` parses to the map with `a` bound to 2 |
| JsonSample.ArrayRootRejected | JSONParser/src/main/java/org/example/Main.java:20-22 | a document whose root is an array fails the cast to `Map` |
| JsonSample.NullRootAccepted | JSONParser/src/main/java/org/example/Main.java:20-22 | a `null` root passes the cast and `parse` returns null |
| JsonSample.BlankRejected | JSONParser/src/main/java/org/example/Main.java:49-51 | a document of whitespace only fails at the end of the text |
| JsonLeniency.MemberNeedsColon | JSONParser/src/main/java/org/example/Main.java:98-101 | a key not followed by `:` after whitespace is the missing-colon error |
| JsonLeniency.MemberCutAfterKey | JSONParser/src/main/java/org/example/Main.java:98-99 | text ending after a key is the end-of-input error |
| JsonLeniency.MembersTrailingComma | JSONParser/src/main/java/org/example/Main.java:104-111 | a comma after the last member is accepted before the `}` |
| JsonLeniency.ElementsTrailingComma | JSONParser/src/main/java/org/example/Main.java:121-128 | a comma after the last element is accepted before the `]` |
| JsonLeniency.EmptyObject | JSONParser/src/main/java/org/example/Main.java:92-113 | `{}`, with any whitespace inside, is the empty map |
| JsonLeniency.EmptyArray | JSONParser/src/main/java/org/example/Main.java:116-130 | `[]`, with any whitespace inside, is the empty list |
| JsonLeniency.UnclosedObject | JSONParser/src/main/java/org/example/Main.java:96-111 | a member loop with no `}` left in the text fails |
| JsonLeniency.UnclosedArray | JSONParser/src/main/java/org/example/Main.java:120-128 | an element loop with no `]` left in the text fails |
| JsonLeniency.TrailingTextIgnored | JSONParser/src/main/java/org/example/Main.java:20-22 | text after the root object is ignored and `parse` returns the object |
| BinaryTree.Insert | TreeSerializer/src/main/java/org/example/BinaryTree.java:27-39 | insertion yields a node whose elements are the old elements plus the value |
| BinaryTree.InsertAll | TreeSerializer/src/main/java/org/example/BinaryTree.java:23-25 | inserting values in turn adds exactly those values |
| BinaryTree.InsertKeepsBst | TreeSerializer/src/main/java/org/example/BinaryTree.java:33-36 | insertion keeps every left value below and every right value above its node |
| BinaryTree.InsertPresent | TreeSerializer/src/main/java/org/example/BinaryTree.java:33-38 | inserting a value already in a search tree returns the tree unchanged |
| BinaryTree.InsertIdempotent | TreeSerializer/src/main/java/org/example/BinaryTree.java:23-39 | inserting twice is inserting once, in any tree |
| BinaryTree.InsertSize | TreeSerializer/src/main/java/org/example/BinaryTree.java:27-39 | the size grows by one exactly when the value is new |
| BinaryTree.SearchPath | TreeSerializer/src/main/java/org/example/BinaryTree.java:33-36 | the search path ends at an empty child or at the node holding the value |
| BinaryTree.InsertAtPathEnd | TreeSerializer/src/main/java/org/example/BinaryTree.java:28-31 | at the end of the search path a new leaf holding the value replaces the empty child, or the existing node stays |
| BinaryTree.InsertOffPath | TreeSerializer/src/main/java/org/example/BinaryTree.java:33-38 | every subtree off the search path is unchanged |
| BinaryTree.DemoTree | TreeSerializer/src/main/java/org/example/Main.java:13-20 | inserting 50, 30, 20, 40, 70, 60, 80 builds the balanced three-level tree |
| TreeCodec.Serialize | TreeSerializer/src/main/java/org/example/BinaryTreeSerializer.java:8-22 | the text is the pre-order token list with each token followed by a comma |
| TreeCodec.TokenCounts | TreeSerializer/src/main/java/org/example/BinaryTreeSerializer.java:14-22 | for values that are not `null` and hold no comma, a tree of n nodes is written as 2n+1 tokens, n+1 of them `null` |
| TreeCodec.TokensEndWithNull | TreeSerializer/src/main/java/org/example/BinaryTreeSerializer.java:15-18 | every encoding ends with the `null` of the rightmost empty child |
| TreeCodec.ReadTree | TreeSerializer/src/main/java/org/example/BinaryTreeSerializer.java:30-37 | a successful read consumes at least one token |
| TreeCodec.ReadTokens | TreeSerializer/src/main/java/org/example/BinaryTreeSerializer.java:30-37 | reading consumes exactly one encoded subtree, returns it and leaves the rest of the queue alone |
| TreeCodec.ReadIsTokens | TreeSerializer/src/main/java/org/example/BinaryTreeSerializer.java:30-37 | whatever is read is the encoding of its result followed by what is left |
| TreeCodec.ReadTruncated | TreeSerializer/src/main/java/org/example/BinaryTreeSerializer.java:31-32 | a queue cut short inside an encoding runs dry and the null `poll` result is dereferenced |
| TreeCodec.PiecesRejoin | TreeSerializer/src/main/java/org/example/BinaryTreeSerializer.java:26 | the comma-free pieces of a text, rejoined with commas, are the text |
| TreeCodec.Split | TreeSerializer/src/main/java/org/example/BinaryTreeSerializer.java:26 | `split` of a text without a comma is that text alone; otherwise it is a prefix of the pieces ending in a non-empty one; no piece holds a comma |
| TreeCodec.SplitRejoin | TreeSerializer/src/main/java/org/example/BinaryTreeSerializer.java:26 | `split` drops only empty pieces: its result, followed by the dropped empty texts and rejoined with commas, is the text again |
| TreeCodec.DropTrailingEmpty | TreeSerializer/src/main/java/org/example/BinaryTreeSerializer.java:26 | `split` keeps a prefix of the pieces, ending in a non-empty piece, and drops only empty ones |
| TreeCodec.Deserialize | TreeSerializer/src/main/java/org/example/BinaryTreeSerializer.java:25-28 | a tree `deserialize` returns was read from the front of the split tokens: its encoding is a prefix of them, and whatever follows is ignored |
| TreeCodec.SplitSerialized | TreeSerializer/src/main/java/org/example/BinaryTreeSerializer.java:25-28 | splitting a serialization recovers exactly its tokens |
| TreeCodec.RoundTrip | TreeSerializer/src/main/java/org/example/BinaryTreeSerializer.java:8-37 | for values that are not `null` and hold no comma, deserializing a serialization gives the tree back, and serializing again gives the same text |
| TreeCodec.DeserializeTruncated | TreeSerializer/src/main/java/org/example/BinaryTreeSerializer.java:25-32 | a serialization cut after fewer than all its tokens fails with the null dereference |
| CyclicCodec.Walk | TreeSerializer/src/main/java/org/example/CyclicTreeSerializer.java:15-29 | a successful walk only adds nodes of the heap to the visited set, and adds the root it enters |
| CyclicCodec.Serialize | TreeSerializer/src/main/java/org/example/CyclicTreeSerializer.java:8-13 | `serialize` succeeds if and only if the graph has a finite unfolding from the root in which no node repeats, and then writes the plain serializer's text for that unfolding's value tree |
| CyclicCodec.WalkTree | TreeSerializer/src/main/java/org/example/CyclicTreeSerializer.java:15-28 | on a graph where every node is reached by one path and none was visited, the output is the plain pre-order serialization and the visited set grows by exactly the nodes reached |
| CyclicCodec.WalkRepeat | TreeSerializer/src/main/java/org/example/CyclicTreeSerializer.java:21-23 | if the unfolding repeats a node or reaches a visited one, the walk throws |
| CyclicCodec.WalkShape | TreeSerializer/src/main/java/org/example/CyclicTreeSerializer.java:15-29 | a successful walk followed a finite, repetition-free unfolding of the graph, and visited exactly its nodes |
| CyclicCodec.WalkSucceeds | TreeSerializer/src/main/java/org/example/CyclicTreeSerializer.java:15-29 | the walk from an empty visited set succeeds if and only if the graph has a finite unfolding from the root in which no node repeats |
| CyclicCodec.WalkPlain | TreeSerializer/src/main/java/org/example/CyclicTreeSerializer.java:15-28 | from an empty visited set, the walk along any repetition-free unfolding writes its plain serialization and visits exactly its nodes |
| CyclicCodec.SerializeIsPlain | TreeSerializer/src/main/java/org/example/CyclicTreeSerializer.java:8-28 | on success the text is the plain serializer's text for the value tree, and the visited set is the unfolding's nodes |
| CyclicCodec.WalkBounded | TreeSerializer/src/main/java/org/example/CyclicTreeSerializer.java:21-28 | a successful walk enters at most as many nodes as the heap holds |
| CyclicCodec.VisitedIsReachable | TreeSerializer/src/main/java/org/example/CyclicTreeSerializer.java:25-28 | after a successful walk the visited set is exactly the set of nodes reachable from the root |
| CyclicCodec.ReachedTwiceFails | TreeSerializer/src/main/java/org/example/CyclicTreeSerializer.java:21-25 | two different paths from the root to the same node, whether a back edge or a shared child, make `serialize` throw |
| CyclicCodec.WalkReadsBack | TreeSerializer/src/main/java/org/example/CyclicTreeSerializer.java:32-44 | the cyclic `deserialize` is the plain reader, and it reads a successful walk's text back as the value tree walked |
| CyclicCodec.IntHeapPlain | TreeSerializer/src/main/java/org/example/Main.java:13-27 | before the back edge the demo tree serializes as the plain serializer writes it |
| CyclicCodec.IntHeapReadsBack | TreeSerializer/src/main/java/org/example/Main.java:23-27 | the demo tree's text deserializes to the same tree |
| CyclicCodec.IntHeapCycle | TreeSerializer/src/main/java/org/example/Main.java:31-40 | after `root.left.right.right = root.left` serializing throws |
| CyclicCodec.StringHeapCycle | TreeSerializer/src/main/java/org/example/Main.java:46-72 | in the string tree, after `root.left.right = root.left`, serializing throws |
| CyclicCodec.SharedNodeRejected | TreeSerializer/src/main/java/org/example/CyclicTreeSerializer.java:21-25 | a node shared by two parents is rejected although there is no cycle |

## Left out

- `Double.parseDouble` is not modelled. A float is kept as the lexeme it was read from; `IsDoubleLexeme` states which lexemes the parser accepts.
- Exception classes and messages become error kinds: `Error` in the reader, `NullPointer` in the tree reader, `CyclicConnection` in the graph walk. The walk's partial output is discarded with the exception.
- `JsonDocument.Write` is not code of the repository. It is a reference writer against which the reader's round trip is stated.
- `BinaryTree.Insert` orders by `Integer.compareTo` only. The string tree of `main` is given directly as a heap in `CyclicCodec.StringHeap`, not built by insertion under `String.compareTo`.
- Generics, `toString` of integers and the unchecked `(T) val` cast are not modelled. Tree values are their texts, and `deserialize` rebuilds a tree of texts.
- `TreeSerializer.java` is an interface only. The console printing of both `main` methods is left out; the demo data appears as lemmas.
- `HashMap`, `HashSet`, `LinkedList` and `StringBuilder` become Dafny maps, sets, sequences and strings.
- The stack overflow of very deep nesting is not modelled: the recursion is unbounded.
- Java strings are sequences of UTF-16 code units, and Dafny strings are sequences of Unicode scalar values. A lone surrogate cannot be represented, and a supplementary character is one position here but two `charAt` positions in Java. No production of the reader depends on this: each compares single characters against ASCII ones or whitespace below U+10000.
- JsonLeniency.UnclosedObject: states that the loop fails, not which error it fails with (a nested value may fail first).
- JsonLeniency.UnclosedArray: the same, for arrays.
- CyclicCodec.ReachedTwiceFails: states one direction in terms of paths. The converse is stated through unfoldings by the contract of `Serialize`.
- CyclicCodec.IntHeapPlain: compares against the plain serializer's output for the value tree rather than spelling out the 61-character text.
- TreeCodec.ReadTree: its own contract only bounds what it consumes; what it reads is stated by `ReadTokens` and `ReadIsTokens`.
