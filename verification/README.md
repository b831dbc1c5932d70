# sabre/xml decode/encode engine in Dafny

This project models the core of sabre/xml, a PHP library that turns XML into
nested PHP arrays and back. It covers both generations of the library:

- the current one under `lib/`: `Reader`, `Writer`, `ContextStackTrait`,
  `Service`, `Deserializer\namespaceAware` and `Serializer\valueObject`;
- the older one under `lib/Sabre/XML/`: `Reader`, `Writer`, `Util` and
  `Element\Struct`.

**The XMLReader pull cursor.** The cursor the readers extend is a sequence of
node records (`Cursor.Node`: kind, namespace, local name, value, depth,
isEmpty, attributes) with a position. `read()` and `next()` move the position.

**Readers.** A reader is a recursive-descent decoder over that cursor:

- Each operation is first a function of the cursor state. `Reader.RState`
  holds the position and the context stack.
- It is then implemented as a method on a `Reader` object, whose `ensures`
  ties the method to that function.
- A PHP exception is an `Err`.
- An input on which the PHP code would loop forever gives
  `Err(NeverTerminates)`.
- The handlers an `elementMap` can hold are a tagged variant (`Reader.Handler`):
  - a generic tree decoder, with an optional element map;
  - `namespaceAware`;
  - the test suite's over-consuming `Eater`;
  - a value that is neither a class nor a callable.

**Writers.** The output of XMLWriter is a log of events (`Writer.Event`), and
the writer state (`Writer.WState`) is:

- that log;
- the ad-hoc prefix map;
- the `namespacesWritten` flag.

**Documents as trees.** For statements about whole documents, `Cursor.Tree`
and `Cursor.TreeNodes` give the node sequence a well-formed fragment produces.
An element without children is either self-closing, `<a/>`, or written as an
empty pair, `<a></a>`, which the cursor reports as a start tag and an end tag;
the `paired` flag of `Cursor.Tree` tells the two apart. Every node kind the
cursor reports inside an element has a leaf: text, CDATA, whitespace,
significant whitespace (blank text outside a DTD), comments, and `Other` for
processing instructions, entity references and the remaining kinds. On such
input:

- the generic decoder gives `ReaderProperties.GenericValue` of the children;
- `namespaceAware` gives `ReaderProperties.NamespacedEntries`, except on an
  element written `<a></a>` (see "## Findings");
- `Struct` gives `LegacyStruct.StructSlot`.

Modules:

| module | file | models |
|---|---|---|
| `Wrappers` | wrappers.dfy | Option, Result, the exceptions |
| `Php` | php.dfy | truthiness, ordered string-keyed arrays, integer to text |
| `Clark` | clark.dfy | `parseClarkNotation` of both generations |
| `Cursor` | cursor.dfy | the XMLReader cursor, document fragments, the `Eater` test handler |
| `ContextStack` | context_stack.dfy | `ContextStackTrait` |
| `Reader`, `ReaderProperties` | reader.dfy, reader_properties.dfy | `lib/Reader.php`, `lib/functions.php` |
| `Writer`, `WriterProperties` | writer.dfy, writer_properties.dfy | `lib/Writer.php` |
| `Serializers` | serializers.dfy | `lib/serializers.php` |
| `Service` | service.dfy | `lib/Service.php` |
| `LegacyReader`, `LegacyStruct`, `LegacyReaderProperties` | legacy_reader.dfy, legacy_struct.dfy, legacy_reader_properties.dfy | `lib/Sabre/XML/Reader.php`, `lib/Sabre/XML/Element/Struct.php` |
| `LegacyWriter`, `LegacyWriterProperties` | legacy_writer.dfy, legacy_writer_properties.dfy | `lib/Sabre/XML/Writer.php` |

## Model

| member | source | states |
|---|---|---|
| Clark.ParseClarkNotation | lib/Service.php:179-190 | A success returns a name whose namespace has no `}` and whose local part has no line feed. The input is `{ns}local`, optionally followed by one final line feed, which PCRE's `$` allows. A failure is the InvalidArgument error carrying the source's message. |
| Clark.ParseClarkNotationComplete | lib/Sabre/XML/Util.php:24-35 | Every `{ns}local` with no `}` in `ns` and no line feed in `local`, with or without one trailing line feed, parses to `(ns, local)`. This holds for both generations, which share the regular expression. |
| Clark.RoundTrip | lib/Service.php:181-189 | Parsing the Clark form of a name gives the name back, for every name the expression can return. |
| Clark.ParseClarkNotationFails | lib/Service.php:181-183 | Parsing succeeds exactly when the string is the Clark form of some parsable name, with or without a final line feed. An empty string, a missing leading `{` or a missing `}` is always an error. |
| Php.GetFound | lib/Writer.php:164 | A key lookup finds a value exactly when the array has the key (`array_key_exists`). |
| Php.PutKeys | lib/functions.php:31-34 | `$a[$k] = $v` keeps the key order: an existing key stays where it was, and a new key is appended. |
| Php.PutGet | lib/functions.php:31-34 | After `$a[$k] = $v`, key `k` reads `v` and every other key reads as before. |
| Php.PutTwice | lib/Sabre/XML/Element/Struct.php:127 | Assigning the same key twice leaves only the second value. |
| Php.PutUnique | lib/functions.php:31-34 | Assignment keeps keys unique. |
| Php.NatToStringInjective | lib/Writer.php:175 | Distinct counts give distinct decimal texts, so the prefixes `'x' . (count + 1)` never collide. |
| Cursor.At | lib/Reader.php:137 | Past the end of input, the cursor reports a NONE node. |
| Cursor.ReadPos | lib/Reader.php:120 | `read()` moves one node forward and stays put at the end. |
| Cursor.NextPos | lib/Reader.php:106 | `next()` never moves backwards, and moves forward from any node. |
| Cursor.SkipSubtree | lib/Reader.php:106 | `next()` past a subtree skips only nodes deeper than the element, stops on the first node at or above its depth, and passes that node only when it is the element's own end tag. |
| Cursor.NextOverTree | lib/Reader.php:106 | On a non-empty element of a well-formed fragment, `next()` lands just past its end tag. |
| Cursor.TreeAtSlice | lib/Reader.php:122-145 | A fragment placed at `p` occupies exactly the nodes `TreeNodes` lists. |
| Cursor.NodeCursor.Read | lib/Reader.php:120 | The method moves as `read()` does, and returns true exactly when the cursor is on a node. |
| Cursor.NodeCursor.Next | lib/Reader.php:106 | The loop skips the subtree as `next()` does, and returns true exactly when the cursor is on a node. |
| Cursor.Eat | tests/Sabre/XML/Element/Eater.php:61-76 | When `Eater` returns, the cursor has moved strictly forward and stays within the input. |
| Cursor.EatLoop | tests/Sabre/XML/Element/Eater.php:65-73 | While an end tag is still owed, the counting loop ends on an end tag strictly past its start. Its only error is running forever past the end of input. |
| Cursor.EatElement | tests/Sabre/XML/Element/Eater.php:61-76 | The counting loop on the cursor ends where `Eat` says, or reports that it never ends. |
| ContextStack.ContextStack.constructor | lib/ContextStackTrait.php:35-65 | A new holder has an empty element map, no context URI, an empty namespace map and an empty stack. |
| ContextStack.ContextStack.PushContext | lib/ContextStackTrait.php:76-84 | A copy of the current triple goes on top of the stack, and the current triple is unchanged. |
| ContextStack.ContextStack.PopContext | lib/ContextStackTrait.php:91-99 | The top saved triple becomes the current one and leaves the stack. |
| ContextStack.ContextStack.SetElement | lib/ContextStackTrait.php:35 | Changing one entry of the current element map leaves the saved copies alone. |
| ContextStack.PushEditPop | tests/Sabre/Xml/ContextStackTest.php:25-46 | After push, edits of all three fields and pop, the state equals the state before the push. |
| ContextStack.ScopedUseRestores | lib/ContextStackTrait.php:76-99 | A push, a body of balanced pushes, pops and edits that never pops below its start, and a pop restore the context exactly. |
| ContextStack.RunKeepsBase | lib/ContextStackTrait.php:78-97 | A run that never pops below a base leaves the base untouched. The stack height changes by the net number of pushes (LIFO). |
| ContextStack.RunAppend | lib/ContextStackTrait.php:76-99 | Running two sequences of stack operations one after the other is the same as running their concatenation. |
| Reader.ClarkOf | lib/Reader.php:34-42 | `getClark()` gives a name exactly when the local name is truthy in PHP's sense (neither empty nor `"0"`). |
| Reader.ClarkOfRoundTrip | lib/Reader.php:40 | The name `getClark()` builds parses back into the node's namespace and local name. |
| Reader.AttributesUnique | lib/Reader.php:229-252 | The attribute array has unique keys. |
| Reader.Combine | lib/Reader.php:150 | Child records win over text. Otherwise the result is the collected text, or null when there was none. |
| Reader.Enter | lib/Reader.php:110-113 | A given element map pushes one frame and keeps the frames below it. |
| Reader.HandlerFor | lib/Reader.php:193-194 | `array_key_exists($name, $elementMap)`: a handler is found exactly when the map has the element's Clark name, or the key "" for an element without one, and it is one of the map's values. |
| Reader.Dispatch | lib/Reader.php:193-210 | Every handler only moves the cursor forward. `namespaceAware` gives a keyed array and `Eater` gives null. A value that is neither a deserializer class nor a callable throws the LogicException naming its type. |
| Reader.CurrentElement | lib/Reader.php:183-217 | `parseCurrentElement` only moves the cursor forward. Unless the input ran out, the context is as before. |
| Reader.InnerTree | lib/Reader.php:96-152 | Same progress guarantee for `parseInnerTree`. |
| Reader.InnerLoop | lib/Reader.php:122-145 | The loop leaves the context as it found it, and ends strictly past its start. |
| Reader.NamespaceAware | lib/functions.php:16-44 | Same progress guarantee for `namespaceAware`. |
| Reader.NamespaceLoop | lib/functions.php:27-41 | The do-while loop leaves the context as it found it, and ends strictly past its start. |
| Reader.NamespaceBody | lib/functions.php:29-38 | One pass of the loop body only moves the cursor forward, and strictly forward from any node; unless the input ran out, the context is as before. |
| Reader.SkipToElement | lib/Reader.php:65 | The skip loop stops on the first element at or after the start, or at the end when there is none. |
| Reader.ParseDocument | lib/Reader.php:57-80 | libxml errors always throw. Without them, the result is the record of the first element. |
| Reader.ReadTextOf | lib/Reader.php:159-171 | `readText` never moves backwards. |
| Reader.ReadTextLoop | lib/Reader.php:164-168 | The `read()` loop only appends to the text, and moves forward within the input. |
| Reader.Reader.constructor | lib/Reader.php:57-59 | A new reader is at the first node, with an empty element map, no context URI and an empty context stack. |
| Reader.Reader.GetClark | lib/Reader.php:34-42 | The method returns `ClarkOf` of the current node. |
| Reader.Reader.ParseAttributes | lib/Reader.php:229-252 | The loop over `moveToNextAttribute` returns `AttributesOf`: `xmlns` declarations are skipped, namespaced attributes are keyed by Clark name and others by local name, and a later attribute wins. |
| Reader.Reader.ParseCurrentElement | lib/Reader.php:183-217 | The method result and the cursor and context afterwards are those of `CurrentElement`. |
| Reader.Reader.ParseInnerTree | lib/Reader.php:96-152 | The method result and state are those of `InnerTree`: self-closing elements, the push and pop, the early `false`, and the premature-end exception. |
| Reader.Reader.ParseChildren | lib/Reader.php:122-145 | The `while (true)` loop computes `InnerLoop`. |
| Reader.Reader.ReadText | lib/Reader.php:159-171 | The loop returns `ReadTextOf`'s text and stops where it says. |
| Reader.Reader.Parse | lib/Reader.php:57-80 | The skip loop plus `parseCurrentElement` give `ParseDocument`, both on success and on error. |
| Reader.NamespaceAwareOn | lib/functions.php:16-44 | The method on a reader computes `NamespaceAware`. |
| Reader.NamespaceLoopOn | lib/functions.php:27-41 | The do-while loop computes `NamespaceLoop`. |
| Reader.NamespaceBodyOn | lib/functions.php:29-38 | One iteration of the loop body computes `NamespaceBody`. |
| ReaderProperties.AttributesLastWins | lib/Reader.php:241-245 | When several attributes share a key, the value of the last one is kept. |
| ReaderProperties.AttributesAbsent | lib/Reader.php:237-239 | A key carried only by `xmlns` declarations, or by no attribute, is absent. |
| ReaderProperties.AttributeKeyForm | lib/Reader.php:234-245 | A namespaced attribute's key is its Clark name; an un-namespaced one's key is its local name. |
| ReaderProperties.DecodeElement | lib/Reader.php:183-217 | With generic handlers, every element of a fragment (self-closing, written `<a></a>`, or with children) decodes to its name, generic value and attributes, and the cursor ends just past it. |
| ReaderProperties.InnerTreeDecodes | lib/Reader.php:96-152 | For every element of a fragment, `<a/>` and `<a></a>` included: the value is the list of child records when there are child elements, otherwise the concatenated TEXT and CDATA (null when empty). The cursor ends just past the element, and the caller's context comes back after a push. |
| ReaderProperties.InnerTreeWithMap | lib/Reader.php:110-113 | Decoding with an element-map argument pushes, decodes with that map, and pops back to the caller's context. |
| ReaderProperties.EmptyElementIsNull | lib/Reader.php:104-108 | A self-closing element gives null, moves one node and leaves the context alone. |
| ReaderProperties.UnclosedElementKeepsPush | lib/Reader.php:110-120 | When the input ends right after a start tag, `parseInnerTree` returns false and the pushed frame is never popped. |
| ReaderProperties.InnerTreeFalse | lib/Reader.php:120 | `false` comes back exactly when the element is not self-closing and the next read falls off the input. |
| ReaderProperties.InnerLoopNeverFalse | lib/Reader.php:122-150 | The loop itself never produces `false`. |
| ReaderProperties.LoopHitsEnd | lib/Reader.php:137-138 | Reaching NONE inside the loop raises the premature-end ParseException. |
| ReaderProperties.LoopOnEnd | lib/Reader.php:133-136 | An end tag finishes the loop one node later, with the combined value. |
| ReaderProperties.EaterHitsPrematureEnd | lib/Reader.php:137-138 | With `Eater` mapped to `elem1` in `<root>␤<elem1/>␤</root>`, whose line breaks are significant whitespace (the document of the older generation's test, tests/Sabre/XML/ReaderTest.php:210-227), the current reader's loop reaches NONE and raises the premature-end ParseException. |
| ReaderProperties.DispatchRules | lib/Reader.php:193-210 | An unmapped name falls back to the generic decoder. A mapped value that is neither class nor callable raises the LogicException naming its type. |
| ReaderProperties.CurrentElementIs | lib/Reader.php:183-217 | A record is the name, the handler's value and the attributes, and the cursor moves as far as the handler moved it. |
| ReaderProperties.RecordShape | lib/Reader.php:212-216 | Every record carries the element's Clark name and its attributes, with unique attribute keys. |
| ReaderProperties.ParseGeneric | lib/Reader.php:57-80 | A document of non-element nodes followed by a root element of any shape (self-closing, `<a></a>`, or with children) and anything else decodes to the root's generic record. |
| ReaderProperties.ParseReportsLibxmlErrors | lib/Reader.php:74-78 | With libxml errors, a parse that would have succeeded throws one LibXMLException carrying them. |
| ReaderProperties.ReadTextTree | lib/Reader.php:159-171 | On an element with an end tag (one with children, or `<a></a>`), `readText` returns the text, CDATA and whitespace below it, in document order, and drops significant whitespace, comments and other nodes; it stops on the element's end tag. |
| ReaderProperties.ReadTextRange | lib/Reader.php:164-168 | The loop collects the kept text of exactly the nodes before the depth returns. |
| ReaderProperties.NamespaceAwareTree | lib/functions.php:16-44 | On every element whose children have no handlers, except one written as the empty pair `<a></a>` (see "## Findings"), `namespaceAware` gives the keyed map of its children, and the cursor ends just past it. |
| ReaderProperties.NamespaceAwareEdges | lib/functions.php:19-22 | A self-closing element gives an empty map after `next()`. An open element at the last node loops forever. |
| ReaderProperties.NamespacedLastWins | lib/functions.php:31-34 | The last child with a given key supplies that key's value. |
| ReaderProperties.NamespacedEntriesKeep | lib/functions.php:29-38 | Children with other keys, and non-element nodes, do not change a key's value. |
| ReaderProperties.KeyOfTree | lib/functions.php:30-35 | A child in the given namespace is keyed by its local name, any other child by its Clark name. |
| ReaderProperties.NamespaceBodyOnElement | lib/functions.php:29-35 | An element child stores the `value` of its `parseCurrentElement` record under its key. |
| ReaderProperties.NamespaceBodyOnOther | lib/functions.php:36-38 | A non-element node is read past and adds nothing. |
| ReaderProperties.NamespaceAwareUnique | lib/functions.php:24-43 | The resulting map has unique keys. |
| ReaderProperties.NamespaceAwareReadsPastEmptyPair | lib/functions.php:26-41 | An element written `<a></a>` with `namespaceAware` mapped to it reads past its own end tag, taking its sibling `b` and the parent's end tag. |
| ReaderProperties.EmptyPairEndsPrematurely | lib/functions.php:26-41 | In the same document, the root's loop then hits the end of input and raises the premature-end ParseException. |
| ReaderProperties.NamespaceAwareChecked | lib/functions.php:16-44 | The corrected `namespaceAware`, which tests for the end tag before the loop body, only moves the cursor forward and, unless the input ran out, keeps the context. |
| ReaderProperties.NamespaceAwareCheckedTree | lib/functions.php:16-44 | On every element whose children have no handlers, `<a></a>` included, the corrected version gives the keyed map of its children, and the cursor ends just past the element. |
| ReaderProperties.EmptyPairChecked | lib/functions.php:19-22 | On `<root><a></a><b/></root>`, the corrected version gives `a` an empty map and stops on `b`. |
| Writer.AdhocFor | lib/Writer.php:174-177 | An unknown namespace gets the next `x<n>` prefix, and a known one keeps its prefix. Entries are only ever added, and stay numbered 1, 2, … in first-seen order. |
| Writer.Declarations | lib/Writer.php:187-189 | One attribute per map entry, in map order: `xmlns:prefix`, or `xmlns` for a prefix PHP treats as false (null, empty or `"0"`). |
| Writer.DeclareOnce | lib/Writer.php:185-192 | The namespace map is declared on the first start tag only. Afterwards the flag is set and the prefixes are unchanged. With the flag already set nothing changes; otherwise the declarations are appended. |
| Writer.StartElementOf | lib/Writer.php:157-196 | A successful start sets the flag, adds events and only adds ad-hoc prefixes, which stay numbered. |
| Writer.WriteAttributeOf | lib/Writer.php:248-282 | An attribute adds events, keeps the flag and only adds ad-hoc prefixes. |
| Writer.AttributeText | lib/Writer.php:279 | Exactly strings, integers, booleans and null can be written as attribute values. A string is written as is, and null and false as "". |
| Writer.KeyName | lib/Writer.php:231-232 | A string key is the attribute name. An integer key gives a non-empty name that never starts with `{`, so it takes the plain branch. |
| Writer.WriteAttributesFrom | lib/Writer.php:231-233 | The foreach, from any pair on, keeps the flag, only appends events, and only adds ad-hoc prefixes, which stay numbered. |
| Writer.WriteAttributesOf | lib/Writer.php:229-235 | The same guarantees for a whole attribute array. |
| Writer.FindKey | lib/Writer.php:115 | The index found holds the key; none is found only when no item has it. |
| Writer.EntryParts | lib/Writer.php:112-134 | An array entry gives its name, attributes and content. The `value` index is used only for array items, and plain entries have no attributes. |
| Writer.WriteValue | lib/Writer.php:99-149 | `write` only appends events, keeps the flag set once written, and keeps prefixes numbered. |
| Writer.WriteEntriesFrom | lib/Writer.php:110-141 | The foreach of `write` only appends events and ad-hoc prefixes, keeps a set flag set, and keeps the prefixes numbered. |
| Writer.WriteEntryOf | lib/Writer.php:110-139 | One array entry writes at least one event and sets the flag. |
| Writer.WriteElementOf | lib/Writer.php:207-215 | `writeElement` writes at least one event and sets the flag. |
| Writer.Writer.constructor | lib/Writer.php:157-196 | A new writer has no events, no ad-hoc prefixes, the flag unset and an empty namespace map. |
| Writer.Writer.StartDocument | lib/Service.php:162 | The method appends the document start to the log. |
| Writer.Writer.AdhocPrefix | lib/Writer.php:174-177 | The `isset` / assign / read sequence computes `AdhocFor`. |
| Writer.Writer.WriteDeclarations | lib/Writer.php:185-192 | The loop writes the declarations once and sets the flag. |
| Writer.Writer.StartElement | lib/Writer.php:157-196 | The method's log, prefixes and flag are those of `StartElementOf`, including the recursive `{}local` case. |
| Writer.Writer.WriteAttribute | lib/Writer.php:248-282 | The method's log and prefixes are those of `WriteAttributeOf`. |
| Writer.Writer.WriteAttributes | lib/Writer.php:229-235 | The foreach computes `WriteAttributesOf`. |
| Writer.Writer.Write | lib/Writer.php:99-149 | The recursive `write` computes `WriteValue`, errors included. |
| Writer.Writer.WriteEntry | lib/Writer.php:112-139 | One foreach iteration computes `WriteEntryOf`. |
| Writer.Writer.WriteElement | lib/Writer.php:207-215 | The method computes `WriteElementOf`. |
| WriterProperties.StartElementShape | lib/Writer.php:157-196 | `startElement` writes one start tag followed only by attributes. |
| WriterProperties.WriteAttributeShape | lib/Writer.php:248-282 | `writeAttribute` writes exactly one attribute. |
| WriterProperties.WriteAttributesShape | lib/Writer.php:229-235 | An attribute array writes one attribute per entry. |
| WriterProperties.WriteValueShape | lib/Writer.php:99-149 | `write` output is balanced. For an array it is one element per entry. |
| WriterProperties.WriteEntriesShape | lib/Writer.php:110-141 | The foreach writes one well-nested element per remaining entry, in order. |
| WriterProperties.WriteEntryShape | lib/Writer.php:136-139 | Each entry is exactly one element: start tag, attributes, content, end. |
| WriterProperties.WriteElementShape | lib/Writer.php:207-215 | `writeElement` writes one element; with null content it holds only attributes, so it is self-closing. |
| WriterProperties.KnownNamespaceElement | lib/Writer.php:164-165 | A namespace in the map, even one with a null prefix, opens with its configured prefix and gets no ad-hoc prefix. |
| WriterProperties.UnknownNamespaceElement | lib/Writer.php:174-177 | An unknown non-empty namespace gets an ad-hoc prefix, the same one on every later use, and is declared in place. |
| WriterProperties.EmptyNamespaceElement | lib/Writer.php:170-172 | `{}local` writes an unprefixed element, then any first-element declarations, then `xmlns=""`. |
| WriterProperties.AdhocPrefixesDistinct | lib/Writer.php:175 | Two namespaces never share an ad-hoc prefix. |
| WriterProperties.DeclaredOnce | lib/Writer.php:185-192 | After the first element, `startElement` writes no namespace declarations, only the `xmlns=""` reset. |
| WriterProperties.FirstElementDeclares | lib/Writer.php:182-192 | The first element, even one with a plain name, is followed by every declaration of the map, in map order. |
| WriterProperties.NamespacedAttribute | lib/Writer.php:257-274 | A known namespace writes `prefix:local` and adds no prefix. An unknown one writes a namespaced attribute with the shared ad-hoc prefix. |
| WriterProperties.NumericEntryRefused | lib/Writer.php:112-117 | An integer key is refused, with the source's message, exactly when the item is not an array with both `name` and `value`. |
| WriterProperties.ArrayFormatsAgree | lib/Writer.php:112-134 | An integer-keyed `name`/`value` item writes the same as a string key with that value (mixed syntax). |
| WriterProperties.ElementIsEntry | lib/Writer.php:207-215 | `writeElement(name, v)` writes the same as an array entry `name => v`. |
| WriterProperties.NullAndObjects | lib/Writer.php:101-145 | Null writes nothing, and `writeElement` with null is start then end. Another object raises InvalidArgumentException naming its class. |
| Serializers.PropertyNameParses | lib/serializers.php:20 | The name `valueObject` gives each property reads back, through `parseClarkNotation`, as the namespace and the property, whenever the namespace has no `}` and the property no line feed. |
| Serializers.ValueObjectFrom | lib/serializers.php:19-21 | The foreach only appends events and ad-hoc prefixes. |
| Serializers.ValueObject | lib/serializers.php:18-22 | The loop of `writeElement` calls computes `ValueObjectFrom`, errors included. |
| Serializers.AsArray | lib/serializers.php:19-20 | One `{namespace}property => value` entry per property, in property order. |
| Serializers.ValueObjectIsArray | lib/serializers.php:18-22 | Serialising an object writes what `write` writes for the array of its properties. |
| Serializers.ValueObjectShape | lib/serializers.php:19-21 | Exactly one well-nested element per property, and nothing else. |
| Serializers.NullPropertyIsEmpty | lib/serializers.php:20 | A null property becomes an element with no content. |
| Service.ParseOf | lib/Service.php:86-101 | A parse succeeds only without libxml errors. |
| Service.WriteDocumentOf | lib/Service.php:156-166 | A written document starts with the document start, and the root's start and end tags follow. |
| Service.Service.constructor | lib/Service.php:46-65 | A new service has empty element and namespace maps. |
| Service.Service.GetReader | lib/Service.php:46-52 | A fresh reader at the start of the input, with the service's element map. |
| Service.Service.GetWriter | lib/Service.php:59-65 | A fresh, empty writer with the service's namespace map. |
| Service.Service.Parse | lib/Service.php:86-101 | Success exactly when the document parses: the root's value is returned and `rootElementName` is set to its name. On an exception the by-reference argument keeps its value. |
| Service.Service.Expect | lib/Service.php:119-136 | The method computes `ExpectOf`. |
| Service.Service.Write | lib/Service.php:156-166 | `startDocument` then `writeElement` on a fresh writer gives `WriteDocumentOf`. |
| Service.ExpectIff | lib/Service.php:130-134 | `expect` returns the root value exactly when the root name equals the expected one. A mismatch raises the ParseException with the source's message, and parse errors pass through. |
| Service.ParseRootName | lib/Service.php:97-98 | `rootElementName` is the Clark name of the first element of the input. |
| Service.NoElementNoName | lib/Service.php:97-98 | On input with no element, a successful parse has no root name. |
| Service.LibxmlErrorsThrow | lib/Reader.php:74-75 | libxml errors make both `parse` and `expect` throw. |
| Service.WriteDocumentShape | lib/Service.php:162-163 | The document is the document start and exactly one root element. |
| Service.WriteDocumentDeclares | lib/Service.php:162-163 | A root in a known namespace uses its prefix and carries every declaration of the map, in order. |
| Service.WriteExample | tests/Sabre/Xml/ServiceTest.php:242-264 | Writing `{http://sabre.io/ns}root` with one child gives `<stdClass:root xmlns:stdClass=…><stdClass:child>value</stdClass:child></stdClass:root>`. |
| LegacyReader.LegacyClarkOf | lib/Sabre/XML/Reader.php:40-47 | The older `getClark()` gives a name exactly when the namespace is truthy, so an element without a namespace has no name. |
| LegacyReader.LegacyCombine | lib/Sabre/XML/Reader.php:107 | Child records win over text; otherwise text, or null. |
| LegacyReader.LegacyCurrentElement | lib/Sabre/XML/Reader.php:121-143 | The older `parseCurrentElement` only moves forward. |
| LegacyReader.LegacyHandlerFor | lib/Sabre/XML/Reader.php:132 | `isset($elementMap[$name])`: there is no class for a name the map lacks or maps to null, and a class found is one of the map's values. |
| LegacyReader.LegacyDispatch | lib/Sabre/XML/Reader.php:132-136 | Every class only moves the cursor forward. `Struct` gives an array and `Eater` gives null. |
| LegacyReader.LegacySubTree | lib/Sabre/XML/Reader.php:73-109 | The older `parseSubTree` only moves forward. |
| LegacyReader.LegacySubLoop | lib/Sabre/XML/Reader.php:83-107 | The do-while only moves forward. Its value is the records, the text or null, and text gathered earlier stays a prefix of the text returned. |
| LegacyReader.StructOf | lib/Sabre/XML/Element/Struct.php:103-157 | `Struct` only moves forward, and returns an array. |
| LegacyReader.StructLoop | lib/Sabre/XML/Element/Struct.php:118-153 | The do-while stops on an end tag and keeps the root an array. |
| LegacyReader.LegacySkip | lib/Sabre/XML/Reader.php:56-58 | The skip loop stops on the first element. |
| LegacyReader.LegacyReader.constructor | lib/Sabre/XML/Reader.php:54-61 | A new reader is at the first node, with the given element map. |
| LegacyReader.LegacyReader.GetClark | lib/Sabre/XML/Reader.php:40-47 | The method computes `LegacyClarkOf`. |
| LegacyReader.LegacyReader.ParseAttributes | lib/Sabre/XML/Reader.php:155-178 | The attribute loop computes `LegacyAttributesOf`. |
| LegacyReader.LegacyReader.ParseCurrentElement | lib/Sabre/XML/Reader.php:121-143 | The method computes `LegacyCurrentElement`. |
| LegacyReader.LegacyReader.ParseSubTree | lib/Sabre/XML/Reader.php:73-109 | The do-while with its `TEXT` fall-through computes `LegacySubTree`. |
| LegacyReader.LegacyReader.Parse | lib/Sabre/XML/Reader.php:54-61 | The skip loop and the one-record list compute `LegacyParse`. |
| LegacyReader.StructDeserialize | lib/Sabre/XML/Element/Struct.php:103-157 | The stack-of-references loop computes `StructOf`. |
| LegacyReaderProperties.ClarkGenerations | lib/Sabre/XML/Reader.php:40-47 | The two `getClark()`s agree when both names are truthy. With an empty namespace only the current one names the node; with an empty local name only the older one does. |
| LegacyReaderProperties.AttributesAgree | lib/Sabre/XML/Reader.php:155-178 | When every local name is truthy, both generations read the same attribute array. |
| LegacyReaderProperties.NullEntryIsGeneric | lib/Sabre/XML/Reader.php:132-136 | A map entry holding null fails `isset`, so the element decodes generically. |
| LegacyReaderProperties.LegacyParseNeverEnds | lib/Sabre/XML/Reader.php:56-58 | Input without an element makes the skip loop run forever. |
| LegacyReaderProperties.LegacyParseFirstElement | lib/Sabre/XML/Reader.php:54-61 | `parse` returns a one-element list holding the first element's record. |
| LegacyReaderProperties.SubLoopKeepsElements | lib/Sabre/XML/Reader.php:86-90 | Once a child element is seen, the result is a list that keeps it. |
| LegacyReaderProperties.SelfClosingLastChild | lib/Sabre/XML/Reader.php:81-105 | A self-closing element followed by its parent's end tag decodes to null, and the cursor passes the parent's end tag. |
| LegacyReaderProperties.TextHidesNextElement | lib/Sabre/XML/Reader.php:91-97 | In `<a>x<b/></a>` the node after the text is skipped, so `b` is lost and `a` decodes to `"x"`. |
| LegacyReaderProperties.TextBeforeChildKept | lib/Reader.php:128-132 | The current reader decodes the same document to the record of `b`. |
| LegacyReaderProperties.EmptySiblingsNest | lib/Sabre/XML/Reader.php:73-109 | In `<r><a/><b/></r>` the older reader puts `b` inside `a`. |
| LegacyReaderProperties.EmptySiblingsApart | lib/Reader.php:104-108 | The current reader decodes the same document to two sibling null records. |
| LegacyStruct.SlotOfSet | lib/Sabre/XML/Element/Struct.php:127-131 | Writing through a reference path and reading it back gives the written value. |
| LegacyStruct.SetTwice | lib/Sabre/XML/Element/Struct.php:127 | A second write through the same path replaces the first. |
| LegacyStruct.SetSame | lib/Sabre/XML/Element/Struct.php:116 | Writing back what a path holds changes nothing. |
| LegacyStruct.SetExtended | lib/Sabre/XML/Element/Struct.php:130-131 | Pushing `&$currentValue[$clark]` and writing through it is an assignment of that key in the current array. |
| LegacyStruct.StructOfTree | lib/Sabre/XML/Element/Struct.php:103-157 | For every element of a fragment, `<a></a>` included, `Struct` returns `StructSlot` of its children, starting from an empty array. It stops on its own end tag when it has one, or on the next node when it is self-closing. |
| LegacyStruct.StructForest | lib/Sabre/XML/Element/Struct.php:118-153 | Siblings are folded into the current slot one after the other. |
| LegacyStruct.SlotStaysArray | lib/Sabre/XML/Element/Struct.php:137-141 | Once the slot is an array, text is ignored and it stays an array. |
| LegacyStruct.ElementMakesArray | lib/Sabre/XML/Element/Struct.php:125 | A child element turns a null or text slot into an array. |
| LegacyStruct.TextWithoutElements | lib/Sabre/XML/Element/Struct.php:134-141 | Without child elements, TEXT nodes are stored while the slot is null and appended while it is text. Other nodes add nothing, and a slot with no text stays null. |
| LegacyStruct.StructUnique | lib/Sabre/XML/Element/Struct.php:127 | The result has unique keys. |
| LegacyStruct.StructLastWins | lib/Sabre/XML/Element/Struct.php:127 | The last child with a given Clark name supplies its entry. |
| LegacyStruct.StructKeeps | lib/Sabre/XML/Element/Struct.php:127 | Children with other names leave an entry alone. |
| LegacyWriter.IssetPrefix | lib/Sabre/XML/Writer.php:79 | `isset` finds a prefix exactly when the namespace is mapped to a non-null prefix. |
| LegacyWriter.LegacyDeclarations | lib/Sabre/XML/Writer.php:93-95 | One `writeAttributeNS('xmlns', prefix, null, ns)` per map entry, in map order. |
| LegacyWriter.LegacyStartElementOf | lib/Sabre/XML/Writer.php:73-102 | A start sets the flag, adds events and keeps prefixes numbered. |
| LegacyWriter.LegacyWriteAttributeOf | lib/Sabre/XML/Writer.php:135-170 | An attribute adds events, keeps the flag and keeps prefixes numbered. |
| LegacyWriter.LegacyWriteAttributesFrom | lib/Sabre/XML/Writer.php:118-120 | The foreach, from any pair on, keeps the flag, only appends events, and only adds ad-hoc prefixes, which stay numbered. |
| LegacyWriter.LegacyWriteAttributesOf | lib/Sabre/XML/Writer.php:116-122 | The same guarantees for a whole attribute array; anything but an array is refused. |
| LegacyWriter.LegacyWriteValue | lib/Sabre/XML/Writer.php:19-65 | The older `write` only appends events and keeps prefixes numbered. |
| LegacyWriter.NumericFrom | lib/Sabre/XML/Writer.php:34-47 | The numeric-format foreach only appends. |
| LegacyWriter.NamedFrom | lib/Sabre/XML/Writer.php:53-59 | The named-format foreach only appends. |
| LegacyWriter.NumericEntryOf | lib/Sabre/XML/Writer.php:36-45 | A numeric-format item that is written sets the flag, appends at least one event, and only adds ad-hoc prefixes, which stay numbered. |
| LegacyWriter.NamedEntryOf | lib/Sabre/XML/Writer.php:55-57 | A named-format entry that is written sets the flag, appends at least one event, and only adds ad-hoc prefixes, which stay numbered. |
| LegacyWriter.LegacyWriter.constructor | lib/Sabre/XML/Writer.php:13-17 | A new writer has no events, no prefixes, the flag unset and an empty map. |
| LegacyWriter.LegacyWriter.AdhocPrefix | lib/Sabre/XML/Writer.php:83-85 | The method computes `AdhocFor`. |
| LegacyWriter.LegacyWriter.WriteDeclarations | lib/Sabre/XML/Writer.php:91-98 | The loop writes the declarations once. |
| LegacyWriter.LegacyWriter.StartElement | lib/Sabre/XML/Writer.php:73-102 | The method computes `LegacyStartElementOf`. |
| LegacyWriter.LegacyWriter.WriteAttribute | lib/Sabre/XML/Writer.php:135-170 | The method computes `LegacyWriteAttributeOf`. |
| LegacyWriter.LegacyWriter.WriteAttributes | lib/Sabre/XML/Writer.php:116-122 | The foreach computes `LegacyWriteAttributesOf`. |
| LegacyWriter.LegacyWriter.Write | lib/Sabre/XML/Writer.php:19-65 | The method computes `LegacyWriteValue`. |
| LegacyWriter.LegacyWriter.WriteNumericItems | lib/Sabre/XML/Writer.php:34-47 | The loop computes `NumericFrom`. |
| LegacyWriter.LegacyWriter.WriteNamedItems | lib/Sabre/XML/Writer.php:53-59 | The loop computes `NamedFrom`. |
| LegacyWriter.LegacyWriter.WriteNumericEntry | lib/Sabre/XML/Writer.php:36-45 | One numeric item computes `NumericEntryOf`. |
| LegacyWriter.LegacyWriter.WriteNamedEntry | lib/Sabre/XML/Writer.php:55-57 | One named item computes `NamedEntryOf`. |
| LegacyWriterProperties.LegacyStartElementShape | lib/Sabre/XML/Writer.php:73-102 | One start tag, then the declarations on the first element only. |
| LegacyWriterProperties.LegacyWriteAttributeShape | lib/Sabre/XML/Writer.php:135-170 | Exactly one attribute. |
| LegacyWriterProperties.LegacyWriteValueShape | lib/Sabre/XML/Writer.php:19-65 | Balanced output, one element per array item. |
| LegacyWriterProperties.NumericEntryShape | lib/Sabre/XML/Writer.php:40-45 | Each numeric item is exactly one element. |
| LegacyWriterProperties.NamedEntryShape | lib/Sabre/XML/Writer.php:55-57 | Each named entry is exactly one element. |
| LegacyWriterProperties.UnsetNamespaceElement | lib/Sabre/XML/Writer.php:79-87 | A namespace that fails `isset` gets an ad-hoc prefix, kept across uses, and is declared in place. |
| LegacyWriterProperties.SetNamespace | lib/Sabre/XML/Writer.php:143-151 | A namespace with a prefix uses it for elements and attributes, with no new declaration. |
| LegacyWriterProperties.NumericItemRefused | lib/Sabre/XML/Writer.php:36-39 | A numeric item without `name` or `value` raises the older message. |
| LegacyWriterProperties.NullPrefixRootLegacy | lib/Sabre/XML/Writer.php:79-87 | A namespace mapped to a null prefix gets the ad-hoc prefix `x1`, and the map is then declared by the call `writeAttributeNS('xmlns', null, null, ns)`, whose null name XMLWriter would refuse. |
| LegacyWriterProperties.NullPrefixRootCurrent | lib/Writer.php:164-165 | The current writer writes the same root unprefixed, with one `xmlns` declaration. |
| LegacyWriterProperties.MixedKeysWritten | tests/Sabre/Xml/WriterTest.php:76-118 | The current writer accepts an array mixing an integer key and a string key. |
| LegacyWriterProperties.MixedKeysRefused | lib/Sabre/XML/Writer.php:30-39 | The older writer decides the format by the first key, and refuses the same array. |
| LegacyWriterProperties.ObjectsDropped | lib/Sabre/XML/Writer.php:19-63 | The older writer writes nothing for a non-`Element` object, where the current one throws. |

## Left out

- XMLReader and XMLWriter are not modelled as code. Input is a sequence of
  node records; output is a log of the writer calls. This leaves out text
  escaping, indentation (`setIndent`), `openMemory`/`outputMemory` and byte
  output.
- libxml's error collection (`libxml_use_internal_errors`,
  `libxml_get_errors`) is an input list of messages to `parse`.
- Stream input (`is_resource`, `stream_get_contents`) is I/O and is left out.
  Service methods take the node sequence.
- What an `XmlSerializable` object (legacy: `Element`) writes is left out. Its
  call is one `Delegated` event.
- Deserializer classes and callables other than the generic decoder,
  `namespaceAware` and `Eater` are left out. `is_subclass_of`, `is_callable`
  and `call_user_func` become the tagged `Handler` variant.
- The generic fallback `Element\Base` is not part of this model. The fallback
  is modelled as `parseInnerTree()` (current) and `parseSubTree()` (older).
- `Element\Cdata`, `Element\Uri`, `lib/Sabre/XML/Element.php` and the
  `ParseException` classes are left out. They are delegation,
  external-library calls, or code that does not run as written.
- `print_r` before the exception in the older writer is an output side
  effect and is left out.
- Floating-point values are left out, and the writer's scalars are strings,
  integers and booleans.
- PHP's normalisation of numeric string keys to integer keys is not modelled.
  A key is integer or string as given.
- `get_object_vars` is given as the object's list of public properties.
- Loose `==` between namespace strings in `namespaceAware` is modelled as
  string equality, leaving out PHP's numeric-string comparison.
- A writer input PHP would accept only through type juggling (a non-string
  element name, a non-array `attributes`, a non-scalar attribute value) gives
  `Err(TypeMismatch)`. The older writer's `array_key_exists` on a non-array
  item gives `InvalidArgument` with its message.
- The older reader's `elementMap` maps to optional handlers: a mapped class
  becomes the `Struct` handler or the generic decoder, and null fails `isset`.
- Writer.Writer.WriteAttribute: requires that no configured prefix starts with `{`. For such a prefix the source's nested `writeAttribute` call would parse `prefix:local` as Clark notation again.
- Writer.Writer.Write: the same requirement applies to `Write`, `WriteEntry`,
  `WriteElement` and `WriteAttributes`, and to `Serializers.ValueObject` and
  `Service.Service.Write`, which call `writeAttribute`.
- ReaderProperties.NamespaceAwareTree: excludes an element written `<a></a>`,
  on which `namespaceAware` as written reads past the element's end tag (see
  "## Findings"); `ReaderProperties.NamespaceAwareCheckedTree` covers every
  element for the corrected version.
- ContextStack.ContextStack.PopContext: requires a non-empty stack. On an
  empty stack the source's `list(...) = array_pop([])` sets all three fields
  to null, which is not modelled.
- Reader.Reader.constructor: the cursor starts on the first node rather than
  before it. Both generations' `parse` begins with a loop that reads until an
  element, so only where that loop starts differs.
- Service `parseClarkNotation` and `Util::parseClarkNotation` are one
  function, `Clark.ParseClarkNotation`, because the two share the same regular
  expression.
- Tests asserting behaviour the code does not have (an empty-input
  `ParseException`, `mapValueObject`, `writeValueObject`) are not modelled.

## Findings

| source | as written | input that shows it | evidently intended | confidence | as-written member | corrected member |
|---|---|---|---|---|---|---|
| lib/Sabre/XML/Reader.php:91-97 | `case TEXT` has no `break`, so after a text node the cursor reads twice and skips the next node | `<a>x<b/></a>`: `b` is skipped and `a` decodes to `"x"` | text is read once, and a following child element is kept, as `lib/Reader.php:128-132` does | not executed | LegacyReaderProperties.TextHidesNextElement | LegacyReaderProperties.TextBeforeChildKept, ReaderProperties.InnerTreeDecodes |
| lib/Sabre/XML/Reader.php:73-109 | `parseSubTree` reads into a self-closing element's children without checking `isEmptyElement` | `<r><a/><b/></r>`: `b` is decoded as a child of `a` | a self-closing element decodes to null and its siblings stay siblings, as `lib/Reader.php:104-108` does | not executed | LegacyReaderProperties.EmptySiblingsNest | LegacyReaderProperties.EmptySiblingsApart, ReaderProperties.InnerTreeDecodes |
| lib/Sabre/XML/Writer.php:79-87 | `isset` treats a namespace mapped to a null prefix as unknown | namespace map `['http://sabredav.org/ns' => null]`, root `{http://sabredav.org/ns}root`: the root gets prefix `x1`, and the map is then declared by the call `writeAttributeNS('xmlns', null, null, ns)`, whose null name XMLWriter would refuse | the root is written in the default namespace, as tests/Sabre/XML/Element/KeyValueTest.php:88-129 expects | not executed | LegacyWriterProperties.NullPrefixRootLegacy | LegacyWriterProperties.NullPrefixRootCurrent, WriterProperties.KnownNamespaceElement |
| lib/functions.php:26-41 | the comment says an element without children needs no work, but only `isEmptyElement` is checked, and the do-while runs its body before testing for the end tag | `<root><a></a><b/></root>` with `namespaceAware` mapped to `a`: `a` takes `b` in, the root's end tag is consumed, and the root's loop hits the end of input | an element written `<a></a>` gives an empty map and the cursor moves past its end tag | not executed | ReaderProperties.NamespaceAwareReadsPastEmptyPair, ReaderProperties.EmptyPairEndsPrematurely | ReaderProperties.NamespaceAwareCheckedTree |
