# Be.Stateless.Xml core, modelled in Dafny

This project models the core of Be.Stateless.Xml, a .NET library of XML helpers. It covers five parts and proves what each one promises.

- **`XmlBuilderStream`** (`builder_stream.dfy`, with `xml_builders.dfy`, `text_encoding.dfy` and `builder_fixtures.dfy`) is a read-only, forward-only stream. It serializes a tree of `IXmlNodeBuilder` nodes (elements, attributes and text) lazily. It walks the tree with a stack of enumerators. Each step yields one markup fragment, which is encoded into the caller's buffer through a window that keeps the bytes that do not fit for the next `Read`. The model proves the following:
  - every step yields exactly the next fragment owed;
  - the fragments of a tree, concatenated, are its markup;
  - `Read` copies the head of the bytes still owed and keeps the rest owed, whatever the chunk size;
  - reading to the end yields the encoded markup of the whole tree, which the test fixture trees confirm one by one.
- **`EmptyXmlReader`** (`empty_reader.dfy`) is an `XmlReader` without content. Its read state is driven by `Read` and `Close`, and every other query answers as if positioned on nothing.
- **`StringXmlExtensions`** (`qnames.dfy`, with `dotnet_text.dfy`) covers `TryParseQName`, `IsQName` and `ToQName`. These parse a qualified name `prefix:local` by a regular expression over NCNames and resolve the prefix through an `IXmlNamespaceResolver`.
- **`EncodingConverter`** (`encoding_converter.dfy`) is a `TypeConverter` between an `Encoding` and its text form. That text form is the web name, followed by ` with signature` when the encoding emits a byte order mark.
- **`CachingXmlSerializerFactory`** (`serializer_cache.dfy`) caches `XmlSerializer`s built with a custom root or with attribute overrides. The cache is keyed by the serialized type.

`results.dfy` holds the `Option`, `Result` and exception values the other modules share. .NET exceptions become `Failure` values that carry the exception type and its parameter name.

The .NET character classes `\w`, `\d` and `\s` are kept abstract as a `CharClasses` value. The lemmas that depend on how a character is classified require the choice to agree with .NET on ASCII (`DotNetText.Consistent`), and `DotNetText.AsciiClasses` is one such choice. `Encoding.GetEncoding` and the machine's byte order are parameters of `EncodingConversion.Deserialize`.

## Model

| member | source | states |
|---|---|---|
| BuilderStreams.ConservativeEnumeratorKeepsLastItem | src/Be.Stateless.Xml/IO/XmlBuilderStream.cs:160-178 | an exhausted enumerator does not move and still reports its last item as current, which is what the closing steps read |
| BuilderStreams.AttributeFragment | src/Be.Stateless.Xml/IO/XmlBuilderStream.cs:129-132 | an attribute yields ` name="value"`, the name qualified only when the prefix is not empty |
| BuilderStreams.OpenTagStart | src/Be.Stateless.Xml/IO/XmlBuilderStream.cs:133-140 | an element with attributes yields `<name` first |
| BuilderStreams.OpenTag | src/Be.Stateless.Xml/IO/XmlBuilderStream.cs:141-148 | an element with child nodes only yields `<name>` first |
| BuilderStreams.SelfClosingTag | src/Be.Stateless.Xml/IO/XmlBuilderStream.cs:149-152 | a bare element yields `<name />` |
| BuilderStreams.EndTag | src/Be.Stateless.Xml/IO/XmlBuilderStream.cs:173-178 | closing the children of an element yields `</name>` |
| BuilderStreams.FragmentsRender | src/Be.Stateless.Xml/IO/XmlBuilderStream.cs:123-180 | the fragments the traversal yields for a node, concatenated, are exactly the markup the node stands for |
| BuilderStreams.FragmentsAllRender | src/Be.Stateless.Xml/IO/XmlBuilderStream.cs:123-180 | the same for a sequence of siblings, in declaration order |
| BuilderStreams.ElementFragmentsRender | src/Be.Stateless.Xml/IO/XmlBuilderStream.cs:133-152 | the element case: tag start, attributes, then ` />` or `>`, children and end tag, is the element's markup |
| BuilderStreams.AttributesCloseRender | src/Be.Stateless.Xml/IO/XmlBuilderStream.cs:160-168 | after the attributes come ` />` when there is no child node, otherwise `>`, the children and the end tag |
| BuilderStreams.RemainingCoversStack | src/Be.Stateless.Xml/IO/XmlBuilderStream.cs:111 | every enumerator on the stack still owes at least one fragment |
| BuilderStreams.EndOfTraversal | src/Be.Stateless.Xml/IO/XmlBuilderStream.cs:111 | `EOF` (the stack is empty) holds exactly when no fragment is left to yield |
| BuilderStreams.ValidFrameKind | src/Be.Stateless.Xml/IO/XmlBuilderStream.cs:160 | an enumerator over attributes holds attributes only and has an owning enumerator below it; any other enumerator holds no attribute |
| BuilderStreams.AdvanceTop | src/Be.Stateless.Xml/IO/XmlBuilderStream.cs:125 | moving the current enumerator yields the fragments of the item it moves to before anything else |
| BuilderStreams.EnterAttributes | src/Be.Stateless.Xml/IO/XmlBuilderStream.cs:138 | pushing the attributes enumerator keeps the stack valid and owes the attributes, then what closes them |
| BuilderStreams.EnterChildNodes | src/Be.Stateless.Xml/IO/XmlBuilderStream.cs:146 | pushing the child-nodes enumerator keeps the stack valid and owes the children, then the end tag |
| BuilderStreams.CloseTop | src/Be.Stateless.Xml/IO/XmlBuilderStream.cs:160-179 | popping an exhausted enumerator owes what closing its owner yields; an attributes enumerator always has an owning element |
| BuilderStreams.StepRemaining | src/Be.Stateless.Xml/IO/XmlBuilderStream.cs:123-180 | one step yields exactly the next fragment owed, keeps the stack valid and pushes or pops at most one enumerator |
| BuilderStreams.StepAdvance | src/Be.Stateless.Xml/IO/XmlBuilderStream.cs:125-157 | the same for a step that moves the current enumerator |
| BuilderStreams.StepClose | src/Be.Stateless.Xml/IO/XmlBuilderStream.cs:160-179 | the same for a step that pops an exhausted enumerator |
| BuilderStreams.BufferController.Availability | src/Be.Stateless.Xml/IO/XmlBuilderStream.cs:81 | the window has room exactly when fewer bytes than its capacity were written |
| BuilderStreams.BufferController.Append | src/Be.Stateless.Xml/IO/XmlBuilderStream.cs:80 | the window takes as many bytes as fit; window plus overflow is old content plus data, and an overflow means a full window |
| BuilderStreams.BufferController.AppendText | src/Be.Stateless.Xml/IO/XmlBuilderStream.cs:84 | the same for the encoded bytes of one fragment |
| BuilderStreams.CopyInto | src/Be.Stateless.Xml/IO/XmlBuilderStream.cs:78 | the bytes written land in `buffer[offset..]` and no other cell changes |
| BuilderStreams.XmlBuilderStream.constructor | src/Be.Stateless.Xml/IO/XmlBuilderStream.cs:38-47 | a fresh stream owes the encoded markup of its root (nothing for a null root), at position 0 |
| BuilderStreams.XmlBuilderStream.Create | src/Be.Stateless.Xml/IO/XmlBuilderStream.cs:40 | a null encoding is refused with `ArgumentNullException("encoding")`; otherwise a fresh stream as above |
| BuilderStreams.XmlBuilderStream.Default | src/Be.Stateless.Xml/IO/XmlBuilderStream.cs:35 | the one-argument constructor encodes as UTF-8 |
| BuilderStreams.XmlBuilderStream.CanRead | src/Be.Stateless.Xml/IO/XmlBuilderStream.cs:51 | the stream can be read |
| BuilderStreams.XmlBuilderStream.CanSeek | src/Be.Stateless.Xml/IO/XmlBuilderStream.cs:53 | the stream cannot seek |
| BuilderStreams.XmlBuilderStream.CanWrite | src/Be.Stateless.Xml/IO/XmlBuilderStream.cs:55 | the stream cannot be written |
| BuilderStreams.XmlBuilderStream.Close | src/Be.Stateless.Xml/IO/XmlBuilderStream.cs:57-61 | a disposable root is disposed once per call |
| BuilderStreams.DisposalHook.Dispose | src/Be.Stateless.Xml/IO/XmlBuilderStream.cs:41 | each call to `Dispose` is counted once, which is what closing a stream over a disposable root is observed through |
| BuilderStreams.XmlBuilderStream.Flush | src/Be.Stateless.Xml/IO/XmlBuilderStream.cs:63-66 | throws `NotSupportedException` |
| BuilderStreams.XmlBuilderStream.Length | src/Be.Stateless.Xml/IO/XmlBuilderStream.cs:68 | throws `NotSupportedException` |
| BuilderStreams.XmlBuilderStream.Position | src/Be.Stateless.Xml/IO/XmlBuilderStream.cs:70-74 | the position read is the number of bytes `Read` has delivered so far |
| BuilderStreams.XmlBuilderStream.SetPosition | src/Be.Stateless.Xml/IO/XmlBuilderStream.cs:73 | throws `NotSupportedException` |
| BuilderStreams.XmlBuilderStream.Seek | src/Be.Stateless.Xml/IO/XmlBuilderStream.cs:90-93 | throws `NotSupportedException` |
| BuilderStreams.XmlBuilderStream.SetLength | src/Be.Stateless.Xml/IO/XmlBuilderStream.cs:95-98 | throws `NotSupportedException` |
| BuilderStreams.XmlBuilderStream.Write | src/Be.Stateless.Xml/IO/XmlBuilderStream.cs:100-103 | throws `NotSupportedException` |
| BuilderStreams.XmlBuilderStream.EOF | src/Be.Stateless.Xml/IO/XmlBuilderStream.cs:111 | the end is reached (the last enumerator popped) exactly when no fragment is left to yield; backlog bytes may still be owed |
| BuilderStreams.XmlBuilderStream.CurrentEnumerator | src/Be.Stateless.Xml/IO/XmlBuilderStream.cs:113-116 | the last enumerator, null exactly at `EOF` |
| BuilderStreams.XmlBuilderStream.CurrentNode | src/Be.Stateless.Xml/IO/XmlBuilderStream.cs:118-121 | the current item of the last enumerator, null at `EOF` or before its first move |
| BuilderStreams.XmlBuilderStream.ReadNextNode | src/Be.Stateless.Xml/IO/XmlBuilderStream.cs:123-180 | returns the fragment and leaves the stack the traversal step prescribes, so the fragment is the next one owed |
| BuilderStreams.XmlBuilderStream.AppendNextNode | src/Be.Stateless.Xml/IO/XmlBuilderStream.cs:84 | one loop body: the next fragment goes into the window and the overflow becomes the backlog, losing and adding no byte |
| BuilderStreams.XmlBuilderStream.Fill | src/Be.Stateless.Xml/IO/XmlBuilderStream.cs:81-85 | the loop fills the window until it is full or the traversal is over, losing and adding no byte |
| BuilderStreams.XmlBuilderStream.Read | src/Be.Stateless.Xml/IO/XmlBuilderStream.cs:76-88 | the bytes copied are the head of what the stream owed and the rest is still owed; no other buffer cell changes; they extend the bytes delivered, and the position advances by the count; a short read means `EOF` and an empty backlog |
| BuilderStreams.ReadToEnd | src/Be.Stateless.Xml.Tests/IO/XmlBuilderStreamFixture.cs:41-47 | reading in chunks of any size until a read falls short yields every byte the stream owed and leaves it at `EOF` |
| BuilderStreams.RenderToBytes | src/Be.Stateless.Xml.Tests/IO/XmlBuilderStreamFixture.cs:39-47 | a stream over a tree yields the encoded markup of the tree, read in chunks of any size |
| BuilderStreams.AdvancePositionAsWritten | src/Be.Stateless.Xml/IO/XmlBuilderStream.cs:86 | the 32-bit `_position` += count wraps around past `int.MaxValue` |
| BuilderStreams.PositionWrapsAsWritten | src/Be.Stateless.Xml/IO/XmlBuilderStream.cs:185 | one byte past `int.MaxValue` the reported position is `int.MinValue` |
| BuilderStreams.RootRemaining | src/Be.Stateless.Xml/IO/XmlBuilderStream.cs:42-46 | the root enumerator over the root alone, or over nothing for a null root, owes exactly the root's markup |
| TextEncoding.GetBytesConcat | src/Be.Stateless.Xml/IO/XmlBuilderStream.cs:84 | encoding fragment by fragment gives the bytes of the whole markup |
| TextEncoding.Utf8 | src/Be.Stateless.Xml/IO/XmlBuilderStream.cs:35 | UTF-8 takes one to four bytes per character, one for ASCII; a longer sequence starts with the lead byte of its length (`110xxxxx`, `1110xxxx`, `11110xxx`) followed by continuation bytes `10xxxxxx` |
| TextEncoding.Utf8KnownCharacters | src/Be.Stateless.Xml/IO/XmlBuilderStream.cs:35 | U+00E9 is `C3 A9`, U+20AC is `E2 82 AC` and U+1F600 is `F0 9F 98 80` |
| BuilderFixtures.RenderAllAppend | src/Be.Stateless.Xml.Tests/Xml/Builder/XmlBuilderTestCasesFactory.cs:118-126 | siblings render in declaration order |
| BuilderFixtures.ChildlessElementSelfCloses | src/Be.Stateless.Xml/IO/XmlBuilderStream.cs:149-152 | an element without child nodes closes itself after its attributes |
| BuilderFixtures.ParentElementHasEndTag | src/Be.Stateless.Xml/IO/XmlBuilderStream.cs:141-148 | an element with child nodes gets `>`, its children and an end tag |
| BuilderFixtures.EmptyTextKeepsEndTag | src/Be.Stateless.Xml.Tests/Xml/Builder/XmlBuilderTestCasesFactory.cs:183-188 | an element whose only child is an empty text gets an end tag and does not close itself |
| BuilderFixtures.QualifiedNameForms | src/Be.Stateless.Xml/IO/XmlBuilderStream.cs:130-132 | a name is the bare local name exactly when the prefix is empty, otherwise `prefix:local` |
| BuilderFixtures.NullRootYieldsNothing | src/Be.Stateless.Xml.Tests/IO/XmlBuilderStreamFixture.cs:39-47 | a null root yields only the final empty fragment, so the stream content is empty |
| BuilderFixtures.RootWithChild | src/Be.Stateless.Xml.Tests/Xml/Builder/XmlBuilderTestCasesFactory.cs:30-35 | the traversal of the test tree yields exactly the fragments of `<root><child /></root>` |
| BuilderFixtures.AttributesOnRootAndChild | src/Be.Stateless.Xml.Tests/Xml/Builder/XmlBuilderTestCasesFactory.cs:38-55 | the traversal of the test tree yields exactly the fragments of `<root a1="one" a2="two"><child a1="one" a2="two" /></root>` |
| BuilderFixtures.ChildWithNullText | src/Be.Stateless.Xml.Tests/Xml/Builder/XmlBuilderTestCasesFactory.cs:58-68 | the traversal of the test tree yields exactly the fragments of `<root><child></child></root>` |
| BuilderFixtures.ChildWithText | src/Be.Stateless.Xml.Tests/Xml/Builder/XmlBuilderTestCasesFactory.cs:71-81 | the traversal of the test tree yields exactly the fragments of `<root><child>content</child></root>` |
| BuilderFixtures.DefaultNamespace | src/Be.Stateless.Xml.Tests/Xml/Builder/XmlBuilderTestCasesFactory.cs:84-97 | the traversal of the test tree yields exactly the fragments of `<root xmlns="urn:ns-one"><child>content</child></root>` |
| BuilderFixtures.PrefixedNamespace | src/Be.Stateless.Xml.Tests/Xml/Builder/XmlBuilderTestCasesFactory.cs:100-115 | the traversal of the test tree yields exactly the fragments of `<s1:root xmlns:s1="urn:ns-one"><s1:child>content</s1:child></s1:root>` |
| BuilderFixtures.SiblingsInOrder | src/Be.Stateless.Xml.Tests/Xml/Builder/XmlBuilderTestCasesFactory.cs:118-126 | the traversal of the test tree yields exactly the fragments of `<root><child-one /><child-two /></root>` |
| BuilderFixtures.SiblingsWithNullText | src/Be.Stateless.Xml.Tests/Xml/Builder/XmlBuilderTestCasesFactory.cs:129-143 | the traversal of the test tree yields exactly the fragments of `<root><child-one></child-one><child-two></child-two></root>` |
| BuilderFixtures.BareRoot | src/Be.Stateless.Xml.Tests/Xml/Builder/XmlBuilderTestCasesFactory.cs:146-150 | the traversal of the test tree yields exactly the fragments of `<root />` |
| BuilderFixtures.RootWithAttributesOnly | src/Be.Stateless.Xml.Tests/Xml/Builder/XmlBuilderTestCasesFactory.cs:153-161 | the traversal of the test tree yields exactly the fragments of `<root a1="one" a2="two" />` |
| BuilderFixtures.DefaultNamespaceOnly | src/Be.Stateless.Xml.Tests/Xml/Builder/XmlBuilderTestCasesFactory.cs:164-170 | the traversal of the test tree yields exactly the fragments of `<root xmlns="urn:ns-one" />` |
| BuilderFixtures.PrefixedNamespaceOnly | src/Be.Stateless.Xml.Tests/Xml/Builder/XmlBuilderTestCasesFactory.cs:173-180 | the traversal of the test tree yields exactly the fragments of `<s1:root xmlns:s1="urn:ns-one" />` |
| BuilderFixtures.RootWithNullText | src/Be.Stateless.Xml.Tests/Xml/Builder/XmlBuilderTestCasesFactory.cs:183-188 | the traversal of the test tree yields exactly the fragments of `<root></root>` |
| BuilderFixtures.RootWithAttributesAndNullText | src/Be.Stateless.Xml.Tests/Xml/Builder/XmlBuilderTestCasesFactory.cs:191-200 | the traversal of the test tree yields exactly the fragments of `<root a1="one" a2="two"></root>` |
| BuilderFixtures.PrefixedRootWithNullText | src/Be.Stateless.Xml.Tests/Xml/Builder/XmlBuilderTestCasesFactory.cs:203-211 | the traversal of the test tree yields exactly the fragments of `<s1:root xmlns:s1="urn:ns-one"></s1:root>` |
| BuilderFixtures.RootWithAttributesAndText | src/Be.Stateless.Xml.Tests/Xml/Builder/XmlBuilderTestCasesFactory.cs:214-223 | the traversal of the test tree yields exactly the fragments of `<root a1="one" a2="two">content</root>` |
| BuilderFixtures.RootWithText | src/Be.Stateless.Xml.Tests/Xml/Builder/XmlBuilderTestCasesFactory.cs:226-231 | the traversal of the test tree yields exactly the fragments of `<root>content</root>` |
| BuilderFixtures.PrefixedTree | src/Be.Stateless.Xml.Tests/Xml/Builder/XmlBuilderTestCasesFactory.cs:234-283 | the traversal of the test tree yields exactly the fragments of `<s1:root a1="one" s2:a2="two" xmlns:s1="urn:ns-one" xmlns:s2="urn:ns-two"> …` |
| BuilderFixtures.DefaultNamespaceTree | src/Be.Stateless.Xml.Tests/Xml/Builder/XmlBuilderTestCasesFactory.cs:286-335 | the traversal of the test tree yields exactly the fragments of `<root a1="one" s2:a2="two" xmlns="urn:ns-one" xmlns:s2="urn:ns-two"> …` |
| BuilderFixtures.ValuesAreNotEscaped | src/Be.Stateless.Xml/IO/XmlBuilderStream.cs:130-154 | attribute and text values are copied verbatim, markup characters included |
| DotNetText.EndAnchorBody | src/Be.Stateless.Xml/Extensions/StringXmlExtensions.cs:72 | a pattern ending in `$` matches the input or the input minus one final line feed, and the latter only when there is one |
| DotNetText.ToUpper | src/Be.Stateless.Xml.Tests/Text/EncodingConverterFixture.cs:86-101 | the upper-case spelling of a string, character by character |
| DotNetText.EqualsIgnoreCaseUpper | src/Be.Stateless.Xml/Text/EncodingConverter.cs:73 | ignoring case, a string equals its upper-case spelling |
| DotNetText.AsciiClasses | src/Be.Stateless.Xml/Extensions/StringXmlExtensions.cs:70 | the .NET classes restricted to ASCII are one consistent choice of `\w`, `\d` and `\s` |
| QualifiedNames.IndexOf | src/Be.Stateless.Xml/Extensions/StringXmlExtensions.cs:72 | the first colon, if any: the prefix of a qualified name cannot contain one |
| QualifiedNames.TryParseQName | src/Be.Stateless.Xml/Extensions/StringXmlExtensions.cs:66-82 | on success both parts are names (the prefix possibly empty) and spell out the input |
| QualifiedNames.TryParseQNameAsWritten | src/Be.Stateless.Xml/Extensions/StringXmlExtensions.cs:72-73 | the pattern as written parses the input minus one final line feed |
| QualifiedNames.IsQName | src/Be.Stateless.Xml/Extensions/StringXmlExtensions.cs:41-46 | under classes that agree with .NET on ASCII, true exactly for inputs in the qualified-name language |
| QualifiedNames.IsQNameAsWritten | src/Be.Stateless.Xml/Extensions/StringXmlExtensions.cs:41-46 | the pattern as written accepts an input exactly when the input minus one final line feed is a qualified name |
| QualifiedNames.ToQName | src/Be.Stateless.Xml/Extensions/StringXmlExtensions.cs:99-107 | null or empty name: `ArgumentNullException("qName")`; null resolver: `ArgumentNullException("namespaceResolver")`; invalid name: `ArgumentException("qName")`; otherwise the local part with the namespace resolved for the prefix, a null namespace kept as the empty one |
| QualifiedNames.ToQNameAsWritten | src/Be.Stateless.Xml/Extensions/StringXmlExtensions.cs:99-107 | the same checks over the parse as written: a non-empty name followed by one line feed is resolved as the name without it, and a lone line feed is an invalid name |
| QualifiedNames.ParseQNameSound | src/Be.Stateless.Xml/Extensions/StringXmlExtensions.cs:73-79 | a successful match yields well-formed parts that spell out the input |
| QualifiedNames.NCNameHasNoColon | src/Be.Stateless.Xml/Extensions/StringXmlExtensions.cs:70 | an NCName has no colon |
| QualifiedNames.JoinHasOneColon | src/Be.Stateless.Xml/Extensions/StringXmlExtensions.cs:72 | `prefix:local` has its only colon between the parts |
| QualifiedNames.ParseQNameComplete | src/Be.Stateless.Xml/Extensions/StringXmlExtensions.cs:72-74 | well-formed parts written out are matched and give back the same parts |
| QualifiedNames.PrefixedShape | src/Be.Stateless.Xml/Extensions/StringXmlExtensions.cs:72 | `prefix:local` has the accepted shape |
| QualifiedNames.AcceptedShape | src/Be.Stateless.Xml/Extensions/StringXmlExtensions.cs:72-74 | an accepted name is an NCName, or two NCNames around its only colon |
| QualifiedNames.TryParseQNameIsTheLanguage | src/Be.Stateless.Xml/Extensions/StringXmlExtensions.cs:66-82 | `TryParseQName` succeeds if and only if the input is in the qualified-name language |
| QualifiedNames.TryParseQNameRoundTrip | src/Be.Stateless.Xml/Extensions/StringXmlExtensions.cs:41-46 | parsing written-out parts gives them back, and `IsQName` accepts them |
| QualifiedNames.PrefixIsTextBeforeColon | src/Be.Stateless.Xml/Extensions/StringXmlExtensions.cs:76-77 | the prefix is empty exactly when there is no colon, otherwise the text before it; the local part is the rest |
| QualifiedNames.NullAndEmptyRejected | src/Be.Stateless.Xml/Extensions/StringXmlExtensions.cs:73 | null and the empty string are refused |
| QualifiedNames.BadLeadingCharacterRejected | src/Be.Stateless.Xml/Extensions/StringXmlExtensions.cs:70 | a part that starts with `-`, `.` or a digit is refused |
| QualifiedNames.EmptyPrefixRejected | src/Be.Stateless.Xml/Extensions/StringXmlExtensions.cs:72 | a leading colon is refused |
| QualifiedNames.SecondColonRejected | src/Be.Stateless.Xml/Extensions/StringXmlExtensions.cs:72 | two colons are refused, adjacent or not |
| QualifiedNames.ForeignCharacterRejected | src/Be.Stateless.Xml/Extensions/StringXmlExtensions.cs:70 | a character that is neither a name character nor a colon is refused anywhere |
| QualifiedNames.AsWrittenIgnoresFinalLineFeed | src/Be.Stateless.Xml/Extensions/StringXmlExtensions.cs:72-73 | the pattern as written differs from the whole-input parse only on inputs ending in a line feed, which it ignores |
| QualifiedNames.FinalLineFeedAcceptedAsWritten | src/Be.Stateless.Xml/Extensions/StringXmlExtensions.cs:72-74 | `"name\n"` is accepted as written, with local part `name`, which does not spell out the input; the whole-input parse refuses it |
| QualifiedNames.ToQNameResolvesPrefix | src/Be.Stateless.Xml/Extensions/StringXmlExtensions.cs:103-106 | `ToQName` succeeds exactly on qualified names, with the parsed local part and the resolved prefix |
| QualifiedNames.ToQNameOfParts | src/Be.Stateless.Xml/Extensions/StringXmlExtensions.cs:105-106 | an unprefixed name is resolved with the empty prefix, a prefixed one with its prefix |
| QualifiedNames.NullNamespaceIsEmpty | src/Be.Stateless.Xml/Extensions/StringXmlExtensions.cs:105-106 | a resolver answering null and one answering the empty namespace give the same qualified name |
| QualifiedNames.CallersAcceptFinalLineFeedAsWritten | src/Be.Stateless.Xml/Extensions/StringXmlExtensions.cs:99-107 | as written, `IsQName("name\n")` holds and `ToQName` resolves it as `name` with the empty prefix; the whole-input versions refuse it |
| QualifiedNames.UnprefixedAccepted | src/Be.Stateless.Xml.Tests/Extensions/StringExtensionsFixture.cs:32-36 | an ASCII name of letters, digits, `-` and `.` starting with a letter parses with an empty prefix |
| QualifiedNames.PrefixedAccepted | src/Be.Stateless.Xml.Tests/Extensions/StringExtensionsFixture.cs:37-38 | two such names around a colon parse as prefix and local part |
| QualifiedNames.Name0Accepted | src/Be.Stateless.Xml.Tests/Extensions/StringExtensionsFixture.cs:32 | the fixture's name is accepted, with the prefix and local part it expects |
| QualifiedNames.NameDash0Accepted | src/Be.Stateless.Xml.Tests/Extensions/StringExtensionsFixture.cs:33 | the fixture's name is accepted, with the prefix and local part it expects |
| QualifiedNames.NaDashMeAccepted | src/Be.Stateless.Xml.Tests/Extensions/StringExtensionsFixture.cs:34 | the fixture's name is accepted, with the prefix and local part it expects |
| QualifiedNames.NaDotMeAccepted | src/Be.Stateless.Xml.Tests/Extensions/StringExtensionsFixture.cs:35 | the fixture's name is accepted, with the prefix and local part it expects |
| QualifiedNames.NaDotMeDot0Accepted | src/Be.Stateless.Xml.Tests/Extensions/StringExtensionsFixture.cs:36 | the fixture's name is accepted, with the prefix and local part it expects |
| QualifiedNames.Ns0NameAccepted | src/Be.Stateless.Xml.Tests/Extensions/StringExtensionsFixture.cs:37 | the fixture's name is accepted, with the prefix and local part it expects |
| QualifiedNames.NsDash0NameDash0Accepted | src/Be.Stateless.Xml.Tests/Extensions/StringExtensionsFixture.cs:38 | the fixture's name is accepted, with the prefix and local part it expects |
| QualifiedNames.ValueAccepted | src/Be.Stateless.Xml.Tests/Extensions/StringExtensionsFixture.cs:85 | the fixture's name is accepted, with the prefix and local part it expects |
| QualifiedNames.NsValueAccepted | src/Be.Stateless.Xml.Tests/Extensions/StringExtensionsFixture.cs:86 | the fixture's name is accepted, with the prefix and local part it expects |
| QualifiedNames.BadLeadingCharacterFixtures | src/Be.Stateless.Xml.Tests/Extensions/StringExtensionsFixture.cs:41-47 | `-name`, `.name`, `0name` and `0ns:0name` are refused, and `0value` (line 84 of the same file) parses to nothing |
| QualifiedNames.BadLocalStartFixtures | src/Be.Stateless.Xml.Tests/Extensions/StringExtensionsFixture.cs:42-46 | the fixture's names with a bad first character after the colon are refused |
| QualifiedNames.EmptyPartFixtures | src/Be.Stateless.Xml.Tests/Extensions/StringExtensionsFixture.cs:39-49 | null, the empty string, `:name` and `:name:name` are refused |
| QualifiedNames.DoubleColonFixture | src/Be.Stateless.Xml.Tests/Extensions/StringExtensionsFixture.cs:50 | `ns0::name` is refused |
| QualifiedNames.SecondColonFixture | src/Be.Stateless.Xml.Tests/Extensions/StringExtensionsFixture.cs:51 | `ns:name:suffix` is refused |
| QualifiedNames.UnprefixedToQNameFixture | src/Be.Stateless.Xml.Tests/Extensions/StringExtensionsFixture.cs:72 | `no-namespace` resolves to the empty namespace, as `new XmlQualifiedName("no-namespace", null)` has |
| QualifiedNames.PrefixedToQNameFixture | src/Be.Stateless.Xml.Tests/Extensions/StringExtensionsFixture.cs:73-74 | `bts:OutboundTransportLocation` resolves to the namespace declared for `bts` |
| QualifiedNames.EmptyPrefixToQNameFixture | src/Be.Stateless.Xml.Tests/Extensions/StringExtensionsFixture.cs:77-80 | `:MessagingStepActivityID` is refused with `ArgumentException("qName")` |
| EncodingConversion.Serialize | src/Be.Stateless.Xml/Text/EncodingConverter.cs:104-108 | null: `ArgumentNullException("encoding")`; otherwise the web name, followed by ` with signature` exactly when the encoding has a preamble |
| EncodingConversion.NameSpan | src/Be.Stateless.Xml/Text/EncodingConverter.cs:205 | the longest run of name characters at the start of the text |
| EncodingConversion.Deserialize | src/Be.Stateless.Xml/Text/EncodingConverter.cs:64-80 | null, empty or ill-formatted text: `NotSupportedException`; `utf-8` in any case: UTF-8; `utf-16` or `utf-32` in any case: that encoding on a little-endian machine, its big-endian form otherwise; each with the preamble exactly when the modifier was there; any other name: what `Encoding.GetEncoding` gives |
| EncodingConversion.UnicodeNamesExclusive | src/Be.Stateless.Xml/Text/EncodingConverter.cs:73-78 | no name equals two of `utf-8`, `utf-16` and `utf-32` ignoring case, so the order of the tests does not matter |
| EncodingConversion.ConvertFrom | src/Be.Stateless.Xml/Text/EncodingConverter.cs:165-168 | strings, and only strings, are deserialized; everything else goes to the base converter |
| EncodingConversion.ConvertTo | src/Be.Stateless.Xml/Text/EncodingConverter.cs:194-197 | an encoding converted to a string, and only that, is serialized; everything else goes to the base converter |
| EncodingConversion.CanConvertFrom | src/Be.Stateless.Xml/Text/EncodingConverter.cs:125-128 | true for strings, otherwise what the base converter answers |
| EncodingConversion.CanConvertTo | src/Be.Stateless.Xml/Text/EncodingConverter.cs:142-145 | true for strings, otherwise what the base converter answers |
| EncodingConversion.NameSpanAt | src/Be.Stateless.Xml/Text/EncodingConverter.cs:205 | the name run stops exactly where the name characters stop |
| EncodingConversion.SpaceIsNoNameChar | src/Be.Stateless.Xml/Text/EncodingConverter.cs:205 | the white space before the modifier cannot be taken for part of the name |
| EncodingConversion.MatchBodyMeaning | src/Be.Stateless.Xml/Text/EncodingConverter.cs:204-206 | the pattern matches a text if and only if it is a name, followed by a white space and the modifier in any case exactly when the flag is set, and captures that name and flag |
| EncodingConversion.WrittenHasNoFinalLineFeed | src/Be.Stateless.Xml/Text/EncodingConverter.cs:205 | a serialized encoding never ends in a line feed |
| EncodingConversion.WrittenSignature | src/Be.Stateless.Xml/Text/EncodingConverter.cs:107 | the written modifier ` with signature` is matched by the preamble group |
| EncodingConversion.WrittenRoundTrip | src/Be.Stateless.Xml/Text/EncodingConverter.cs:68-72 | matching a written name and flag gives back that name and flag |
| EncodingConversion.AsciiEncodingNameIsName | src/Be.Stateless.Xml/Text/EncodingConverter.cs:205 | an ASCII web name of letters, digits and `-` starting with a letter matches the name group |
| EncodingConversion.DeserializeRefusesNullOrEmpty | src/Be.Stateless.Xml/Text/EncodingConverter.cs:66 | null and the empty string are refused with `NotSupportedException` |
| EncodingConversion.UnicodeNamesDiffer | src/Be.Stateless.Xml/Text/EncodingConverter.cs:73-79 | `utf-8`, `utf-16`, `utf-32` and `utf-16BE` differ from each other, ignoring case |
| EncodingConversion.WrittenUnicodeName | src/Be.Stateless.Xml/Text/EncodingConverter.cs:73-78 | a written Unicode name reads back as that Unicode encoding, big-endian on a big-endian machine, with the same preamble |
| EncodingConversion.UnicodeRoundTrip | src/Be.Stateless.Xml/Text/EncodingConverter.cs:64-108 | deserializing a serialized UTF-8 encoding, or UTF-16 or UTF-32 on a little-endian machine, gives back the same web name and preamble |
| EncodingConversion.BigEndianNameIsLookedUp | src/Be.Stateless.Xml/Text/EncodingConverter.cs:75-79 | on a big-endian machine `utf-16` reads back as `utf-16BE`, whose serialized form goes to `Encoding.GetEncoding` |
| EncodingConversion.BigEndianNameWritten | src/Be.Stateless.Xml/Text/EncodingConverter.cs:79 | the serialized form of `utf-16BE` goes to `Encoding.GetEncoding` |
| EncodingConversion.Utf8ReadFixtures | src/Be.Stateless.Xml.Tests/Text/EncodingConverterFixture.cs:69-118 | `utf-8 with signature`, the modifier in upper case, and `utf-8` read back as UTF-8 with and without preamble |
| EncodingConversion.Utf8WrittenFixtures | src/Be.Stateless.Xml.Tests/Text/EncodingConverterFixture.cs:120-140 | UTF-8 with and without preamble is written as `utf-8 with signature` and `utf-8` |
| EncodingConversion.UpperCaseSignature | src/Be.Stateless.Xml.Tests/Text/EncodingConverterFixture.cs:86-101 | the modifier is matched ignoring case |
| EncodingConversion.RefusedFixtures | src/Be.Stateless.Xml.Tests/Text/EncodingConverterFixture.cs:52-67 | `utf-8, bam` and the empty string are refused with `NotSupportedException` |
| EncodingConversion.UnknownNameFixture | src/Be.Stateless.Xml.Tests/Text/EncodingConverterFixture.cs:44-50 | `utf-48` is handed to `Encoding.GetEncoding`, whose exception is the result |
| EncodingConversion.StringsConvert | src/Be.Stateless.Xml.Tests/Text/EncodingConverterFixture.cs:30-42 | strings can be converted from and to |
| EmptyReaders.RunAppend | src/Be.Stateless.Xml/Xml/EmptyXmlReader.cs:48-51 | the read state after one more operation is that operation's target state |
| EmptyReaders.RunIsLastOperation | src/Be.Stateless.Xml/Xml/EmptyXmlReader.cs:116-120 | the read state is that of the last operation, whatever came before |
| EmptyReaders.ReachableStates | src/Be.Stateless.Xml/Xml/EmptyXmlReader.cs:37-40 | `Initial` exactly before any operation, `EndOfFile` exactly after a read, `Closed` exactly after a close; never `Interactive` nor `Error` |
| EmptyReaders.ReadAgain | src/Be.Stateless.Xml/Xml/EmptyXmlReader.cs:116-120 | reading again changes nothing, and reading a closed reader puts it at the end of its file |
| EmptyReaders.EmptyXmlReader.constructor | src/Be.Stateless.Xml/Xml/EmptyXmlReader.cs:37-40 | a new reader is `Initial` |
| EmptyReaders.EmptyXmlReader.Create | src/Be.Stateless.Xml/Xml/EmptyXmlReader.cs:32-35 | `Create` returns a new reader in the `Initial` state |
| EmptyReaders.EmptyXmlReader.Read | src/Be.Stateless.Xml/Xml/EmptyXmlReader.cs:116-120 | returns false and sets `EndOfFile`, from any state |
| EmptyReaders.EmptyXmlReader.Close | src/Be.Stateless.Xml/Xml/EmptyXmlReader.cs:48-51 | sets `Closed`, from any state |
| EmptyReaders.EmptyXmlReader.ReadStateNow | src/Be.Stateless.Xml/Xml/EmptyXmlReader.cs:127 | `Initial` before any operation, otherwise the state the last operation left |
| EmptyReaders.EmptyXmlReader.EOF | src/Be.Stateless.Xml/Xml/EmptyXmlReader.cs:55 | true exactly when the last operation was a read |
| EmptyReaders.Observations | src/Be.Stateless.Xml/Xml/EmptyXmlReader.cs:44-134 | `EOF` exactly after a read; every other property and query answers the same in every state: no attributes, empty names, node type `None`, `GetAttribute(int)` out of range, `ResolveEntity` invalid |
| SerializerCaches.SerializerFactory.constructor | src/Be.Stateless.Xml/Xml/Serialization/CachingXmlSerializerFactory.cs:85 | the cache starts empty, and every cached serializer keeps the type it is cached under |
| SerializerCaches.SerializerFactory.Create | src/Be.Stateless.Xml/Xml/Serialization/CachingXmlSerializerFactory.cs:52-55 | `Create(Type)` builds a new serializer and does not touch the cache |
| SerializerCaches.SerializerFactory.CreateWithRoot | src/Be.Stateless.Xml/Xml/Serialization/CachingXmlSerializerFactory.cs:57-60 | a cached request whose factory builds a serializer with the given root |
| SerializerCaches.SerializerFactory.CreateWithOverrides | src/Be.Stateless.Xml/Xml/Serialization/CachingXmlSerializerFactory.cs:62-65 | a cached request whose factory builds a serializer with the given overrides |
| SerializerCaches.SerializerFactory.CachedCreate | src/Be.Stateless.Xml/Xml/Serialization/CachingXmlSerializerFactory.cs:69-83 | a hit returns the cached serializer and builds nothing; a miss builds one, stores it under the type and returns it; every cached serializer is for its key |
| SerializerCaches.FirstRequest | src/Be.Stateless.Xml/Xml/Serialization/CachingXmlSerializerFactory.cs:71 | the index of the first request for a type |
| SerializerCaches.HitServesCached | src/Be.Stateless.Xml/Xml/Serialization/CachingXmlSerializerFactory.cs:71-82 | a request on a cached type serves the cached value and leaves the cache unchanged |
| SerializerCaches.MissStoresBuilt | src/Be.Stateless.Xml/Xml/Serialization/CachingXmlSerializerFactory.cs:77-78 | a request on a missing type serves the built value and adds exactly that entry |
| SerializerCaches.SecondRequestServedFirst | src/Be.Stateless.Xml/Xml/Serialization/CachingXmlSerializerFactory.cs:57-65 | a second request for a type is served the first request's serializer, whatever root or overrides it asks for |
| SerializerCaches.OnlyGrows | src/Be.Stateless.Xml/Xml/Serialization/CachingXmlSerializerFactory.cs:78 | entries are never replaced or removed |
| SerializerCaches.CachedKeys | src/Be.Stateless.Xml/Xml/Serialization/CachingXmlSerializerFactory.cs:78 | the cached types are exactly those cached before or requested since |
| SerializerCaches.FirstRequestWins | src/Be.Stateless.Xml/Xml/Serialization/CachingXmlSerializerFactory.cs:69-83 | a type ends up with the serializer built for its first request |
| SerializerCaches.ServedIsFinal | src/Be.Stateless.Xml/Xml/Serialization/CachingXmlSerializerFactory.cs:82 | every request is served the instance the cache holds for its type at the end, so repeated requests share one instance |

## Left out

- The test tree builders (`XmlElementBuilder` and friends) are modelled as one `Node` datatype whose `WellFormed` predicate says what `ReadNextNode` expects: an element with an optional prefix and namespace, attributes that are attributes, child nodes that are elements or text. The `NotImplementedException` default at XmlBuilderStream.cs:155-156 is therefore unreachable in the model.
- The `IEnumerator` stack (a `LinkedList`) is the `Stack` datatype of `Frame`s, each a list of items and a cursor. The "conservative" enumerator extension that keeps the last item as current once exhausted is not part of this model's sources; its behaviour is inferred from its use at XmlBuilderStream.cs:160-178 and stated by `BuilderStreams.ConservativeEnumeratorKeepsLastItem`.
- The final `null` that `ReadNextNode` returns when it pops the root enumerator (XmlBuilderStream.cs:179) is modelled as the empty fragment `""`, which appends no byte.
- `BufferController` is not part of this model's sources. It is modelled as a value: a capacity and the bytes written to the caller's window so far. `Append` returns the bytes that did not fit, and `Read` copies the window into the caller's array with `CopyInto`.
- An `Encoding` is modelled as a function from one character to its bytes (UTF-8 by default). It writes no preamble, as `GetBytes` writes none. Characters are Unicode scalar values rather than UTF-16 code units.
- `BuilderStreams.XmlBuilderStream.Close` counts `Dispose` calls on a disposable root through `DisposalHook`. `Stream.Close` of the base class is left out, because the model has no disposed state.
- `BuilderStreams.XmlBuilderStream.Read`: the position is an unbounded integer, while the source's `_position` is an `int` that wraps (see Findings).
- `BuilderStreams.XmlBuilderStream.Read`: the argument checks `Stream` callers get from the base class are requirements here (a buffer, `0 <= offset`, `0 <= count`, `offset + count` within the buffer), as the source leaves those checks to `BufferController`, which is not part of this model.
- The test fixture trees are compared with their expected markup fragment by fragment (`Fragments`); `BuilderStreams.FragmentsRender` and `BuilderStreams.RenderToBytes` carry that over to the bytes read. `StreamReader` decoding the bytes back is left out.
- Character classes: .NET's Unicode categories for `\w`, `\d` and `\s` are abstract, and only their ASCII behaviour and the relations between them are assumed through `DotNetText.Consistent`. Case-insensitive comparison is simplified to folding ASCII letters only, with an invariant culture assumed. .NET's `StringComparison.OrdinalIgnoreCase` also folds non-ASCII letters. `RegexOptions.IgnoreCase` in the modifier pattern follows the current culture, so under a Turkish culture `WITH SIGNATURE` would not match; the model does not capture that.
- `QualifiedNames.ToQName`: the message text of the exceptions is left out; the exception type and parameter name are modelled.
- `QualifiedNames.IsQName`, `QualifiedNames.ToQName`: these are built on the whole-input parse (the corrected behaviour, see Findings). The source's versions also accept a qualified name followed by one line feed; `QualifiedNames.IsQNameAsWritten` and `QualifiedNames.ToQNameAsWritten` model that.
- `EncodingConversion.ConvertFrom` and `EncodingConversion.ConvertTo`: what the base `TypeConverter` does is not modelled. They return `ToBase` where the source delegates to it, and `CanConvertTo` takes the base converter's answer as a parameter.
- `EncodingConversion.Deserialize`: `Encoding.GetEncoding` is a parameter, and so is `BitConverter.IsLittleEndian`. The `Encoding` objects built for Unicode names are described by their web name and whether they emit a preamble.
- `EmptyReaders.EmptyXmlReader`: `NameTable` is left out, since no name is ever added to it. `MoveToAttribute(int)` and `MoveToContent` are base-class members and are left out. The `Initial`-state checks at EmptyXmlReaderFixture.cs:61-68 and `ReadToEnd` at 70-86 are covered by `EmptyReaders.ReachableStates` and `EmptyReaders.EmptyXmlReader.Read`.
- `SerializerCaches.SerializerFactory.CachedCreate`: the lock and the double-checked read are modelled as one sequential check, so concurrent callers are not modelled. The static `_cache` is the field of one `SerializerFactory` object.
- `SerializerCaches.SerializerFactory.CachedCreate`, `SerializerCaches.SerializerFactory.Create`: a type is never null here, so the exceptions a null type raises (from `new XmlSerializer(type)` at CachingXmlSerializerFactory.cs:54, from `_cache.TryGetValue` at :71) are not modelled. The factory never fails, so a failure that leaves the cache unchanged is not modelled. Types are keyed by their full name, so two distinct types sharing one full name (from different assemblies) would share an entry here, while the source's `Dictionary<Type, …>` keeps them apart.
- `XmlSerializer` generation is modelled as an object that remembers the type and the customization it was built with; serialization itself is left out.

## Findings

| source | as written | input that shows it | evidently intended | confidence | as-written member | corrected member |
|---|---|---|---|---|---|---|
| src/Be.Stateless.Xml/Extensions/StringXmlExtensions.cs:72-73 | the pattern `^(?:(?<prefix>[\w-[\d]][\w\-\.]*)\:)?(?<localPart>[\w-[\d]][\w\-\.]*)$` ends in `$`, which also matches just before a final line feed | `"name\n"` is accepted, with local part `name`, although it is not a qualified name | accept only inputs that are entirely a qualified name (`\z` instead of `$`) | not executed | QualifiedNames.TryParseQNameAsWritten, QualifiedNames.IsQNameAsWritten, QualifiedNames.ToQNameAsWritten, QualifiedNames.FinalLineFeedAcceptedAsWritten, QualifiedNames.CallersAcceptFinalLineFeedAsWritten | QualifiedNames.TryParseQName, QualifiedNames.IsQName, QualifiedNames.ToQName, QualifiedNames.TryParseQNameIsTheLanguage, QualifiedNames.ToQNameResolvesPrefix |
| src/Be.Stateless.Xml/IO/XmlBuilderStream.cs:86, 185 | `_position += count` on a 32-bit `int` field, read through the `long` property `Position` | reading 2147483647 bytes and then 1 more reports position -2147483648 | a position that counts every byte read (a `long` field, as `Position` is declared) | not executed | BuilderStreams.AdvancePositionAsWritten, BuilderStreams.PositionWrapsAsWritten | BuilderStreams.XmlBuilderStream.Read |
