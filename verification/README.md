# Verified model of the libjingle XML stack and XMPP caches

Dafny models of `talk/xmllite` (namespace stack, printer, parser, builder, element lists) and
of the stateful parts of `talk/xmpp` that are built on it (PubSub state client, roster,
identifiers, chatroom, ping task, status truncation), with proofs about them.

`dafny verify dfyconfig.toml` checks the whole project.

## What is proved

**Print and parse.** A tree is printed with namespace prefixes that the printer looks up in a
scoped stack or invents; the parser resolves them with a stack of its own.
`Namespaces` has the stack as a value: searching for a prefix is a sound and complete inverse
of resolving one under any shadowing, and inventing a prefix terminates after at most one more
try than there are declarations and changes the meaning of nothing in scope; what a prefix
means, which one is found and which word is suggested is stated outright for every stack and
every namespace. `Printing` and
`Parsing` have the printer and the parser with its builder as functions, and `XmlnsStacks`,
`Printing.XmlPrinter`, `XmlParsers` the objects that compute them. `RoundTrip` proves that the
parser's stack follows the printer's tag by tag and that the tree comes back with exactly the
declarations the printer added (`Decorate`), **if and only if** every tag is namable: no prefix
is declared to be empty and no unqualified element stands under a default namespace.
`Lexing` is a reference tokenizer in place of expat, and `Documents` proves that the printed
characters are tokenized to the tokens of the tree **if and only if** all that is written
survives tokenizing: the characters of values and text, and the namespace names, which are
printed unescaped (the tree is plain). `Misreading` completes the round trip on text: reading
gives the decorated tree **if and only if** the tree is plain and namable; what is misread ends
up in the tree, because the tags and letters of a tree that is being read only grow in document
order. `Reprinting` proves that nothing but declarations was added, and that printing the tree
that was read gives the same tokens, always, and the same text **if and only if** no unescaped
namespace name needs escaping and no element has only empty text. `Exactness` says when a tree
is read back as the very tree that was printed, on tokens and on text: **if and only if** its
text is joined, its characters survive and it declares what it uses (no declaration is empty,
and each namespace has a prefix by the declarations around it). `Rereading` and `Rewriting` go
the other way: what any accepted document builds is well named and joined, so reading, printing
and reading again gives the same tree **if and only if** it declares what it uses, which the
tree of a conforming document always does. `XmlParsers` proves the error latch over every
sequence of `Parse` calls, and what a reset leaves to the next document.

**Element lists.** `Elements` has the linked attribute and child lists with their tail
pointers; each operation is proved to be the matching operation on a sequence, and those on
children for every position in which the tail pointer may have been left. `ElementCopy` proves that the copy constructor makes an equal
tree of new objects, attributes included.

**PubSub.** For every run, the signals of each key lead from its first state to its last
without a gap; joining late gives the same tables as having been there, for every history in
which live items keep their keys apart and every comparison that never equates different
states; the histories that `PubSubStateClient::Publish` and `PresenterStateClient::Publish`
make are of this kind; whatever is published on a node, also of other kinds of state, each key
ends with the state of the last request for it; handling a message's items before its retracts
does not matter when they are independent.

**Roster.** A copy of the contact list that follows only the notifications equals the list in
every run, and each notification agrees with that copy; contacts stay distinct if and only if every first load names each one once; the
flat presence list and the per-contact lists agree although updates reach one of them only
through shared objects; the cached group position is always right, and after any calls the
group count is right if and only if no group was added after the last reset of the cache and
before the groups were counted.

**Identifiers.** Which parts are legal is decided by character sets and lengths, and a legal part
changes in letter case only. Normalising is idempotent and printing and parsing give an identifier back,
except exactly when a domain of more than 1023 bytes is dropped while node or resource stay;
the identifier is the intended one exactly when this does not happen and no illegal resource
is kept.

**Chatroom, ping, status text.** The transition table does what a direct description of entering,
being refused, leaving and being put out says, for every room and event; entering and leaving
alternate in every run, an exit is reported as requested only if it was, and the member list
can be followed from the callbacks; its members are all of the current room throughout a
run if and only if the client never goes to another room while members are listed; in every run the two 32-bit timers and the zero
sentinel of the ping task do what pinging in true, unbounded time does **if and only if** the
wrapping clock misleads no wake-up, a condition on the times alone; truncating a valid status
cuts it to its longest valid prefix of at most 300 bytes.

## Where the code does not do what it promises

- `AddNewPrefix` gives an unqualified element under a default namespace a prefix that is bound
  to the empty name, which the parser rejects: `Reprinting.UnqualifiedUnderDefault`; exactly
  when: `RoundTrip.PrintThenParse`.
- Generated declarations are printed without escaping: `Reprinting.UnescapedNamespace`; exactly
  when the document is then not read back: `Misreading.DocumentRoundTrip`.
- Printing the tree that was read need not give the same text, because the declarations are
  escaped the second time (`Reprinting.EscapedTheSecondTime`) and because empty text vanishes
  (`Reprinting.EmptyTextVanishes`); exactly when: `Reprinting.TextAgain`.
- Control characters are printed as they are, so that a tab in an attribute value is read as a
  blank: `Reprinting.TabBecomesBlank`; exactly when: `Misreading.DocumentRoundTrip`.
- The parser accepts a prefix that is bound to the namespace of declarations, and then an
  attribute that the printer takes for a declaration. The printed form of the tree is rejected
  (`Rereading.DeclarationInDisguise`) or read as another tree
  (`Rereading.DeclarationHidesAnother`); exactly when: `Rereading.ReadThenPrintIff` and, on
  text, `Rewriting.ReadPrintReadIff`.
- `Reset` leaves the builder where it stands, so that the next document is attached inside an
  element that was open: `XmlParsers.ResetInsideElement`; exactly when:
  `XmlParsers.DocumentAfterReset`.
- `InsertChildAfter` does not maintain the tail pointer, so that a child inserted at the end is
  lost when another is added (`Elements.InsertThenAdd`) and the body text is not that of an only
  child (`Elements.BodyTextInserted`, `Elements.BodyTextBehind`); the pointer is right
  afterwards exactly when the child was not inserted at the end:
  `Elements.ChildList.InsertChildAfter`.
- `PrepDomain` reports a domain of more than 1023 bytes as valid and returns it empty, so that
  an identifier can have a node but no domain: `Jids.NodeWithoutDomain`; exactly when:
  `Jids.NormaliseRoundTrip`.
- `AddGroup` increments a count that was never computed, so that it stays too low:
  `RosterGroups.CountBeforeAdding`; exactly when: `RosterGroups.CountIsRightIff`.
- The member list of a chatroom is not cleared, so that members of one room are listed in
  another: `Chatroom.MemberOfAnotherRoom`; exactly when: `Chatroom.RunKeepsHere`.
- The first roster load can list a contact twice: `RosterContacts.DuplicateOnFirstLoad`;
  exactly when: `RosterContacts.RunDistinct`.
- A ping near the end of the 32-bit clock loses its timeout and is repeated at once
  (`Ping.WrapBreaksPacing`), and a ping that is due is not sent when the clock wraps before the
  next wake-up (`Ping.WrapDelaysPing`); exactly when: `Ping.TimerIsIdeal`, and for a clock that
  has not wrapped since the last ping: `Ping.SameTurn`.
- `PrepResource` computes whether a character is legal and does not use it, so that an illegal
  character of a resource becomes a NUL: `Jids.IllegalResourceAccepted`; exactly when:
  `Jids.ResourceAsIntended`, and for whole identifiers `Jids.NormaliseAsIntended`.

## Model

| member | source | states |
|---|---|---|
| `Namespaces.NsForSpec` | talk/xmllite/xmlnsstack.cc:59-84 | what a prefix means: reserved ones, the youngest declaration, the empty default |
| `Namespaces.PrefixForSpec` | talk/xmllite/xmlnsstack.cc:92-110 | which prefix is found: a built-in one, none where none is needed, otherwise the youngest that can be written |
| `Namespaces.PrefixForInverse` | talk/xmllite/xmlnsstack.cc:59-110 | a prefix that is found means the namespace asked for, and none is found only if nothing in scope means it, under arbitrary shadowing and with no default for attributes |
| `Namespaces.ResolveFormat` | talk/xmllite/xmlnsstack.cc:112-118 | a printed name resolves to the name it was printed from if and only if its namespace has a prefix and the first colon is the one after the prefix |
| `Namespaces.SuggestPrefix` | talk/xmllite/xmlnsstack.cc:145-170 | the suggestion is a non-empty lower-case word that does not begin with "xml" |
| `Namespaces.SuggestLastWord` | talk/xmllite/xmlnsstack.cc:145-170 | it is the last word of the name without a short extension, in lower case, cut to three letters if it has more than four, or "ns" if that begins with "xml" |
| `Namespaces.SuggestNothing` | talk/xmllite/xmlnsstack.cc:145-170 | it is "ns" for a name without a letter there |
| `Namespaces.SuggestionRule` | talk/xmllite/xmlnsstack.cc:145-170 | every name falls under one of these two rules |
| `Namespaces.SuggestedWords` | talk/xmllite/xmlnsstack_unittest.cc:183-209 | the words that the library's own examples expect |
| `Namespaces.DecimalReads` | talk/xmllite/xmlnsstack.cc:179-184 | the number that is appended is written in decimal without leading zeros |
| `Namespaces.CandidateInjective` | talk/xmllite/xmlnsstack.cc:177-185 | the numbered tries of the prefix search are pairwise different |
| `Namespaces.SearchIsShort` | talk/xmllite/xmlnsstack.cc:178-185 | the search makes at most one more try than there are declarations |
| `Namespaces.AddNewSpec` | talk/xmllite/xmlnsstack.cc:172-188 | an invented prefix is non-empty, not reserved, colon-free and was unbound; it then means the namespace and every other prefix means what it meant |
| `Namespaces.AddNewGivesPrefix` | talk/xmllite/xmlnsstack.cc:172-188 | afterwards the namespace has a prefix and no meaning in scope has changed |
| `Namespaces.AddedPrefixes` | talk/xmllite/xmlnsstack_unittest.cc:183-209 | the prefixes that the library's own examples expect, numbered where the word is taken |
| `XmlnsStacks.ComputeSuggestion` | talk/xmllite/xmlnsstack.cc:145-170 | the backward scan computes the suggestion |
| `XmlnsStacks.XmlnsStack.PushFrame` | talk/xmllite/xmlnsstack.cc:46-48 | records how many declarations there are |
| `XmlnsStacks.XmlnsStack.PopFrame` | talk/xmllite/xmlnsstack.cc:50-57 | forgets exactly the declarations made since the matching push |
| `XmlnsStacks.XmlnsStack.NsForPrefix` | talk/xmllite/xmlnsstack.cc:59-84 | the backward loop finds the youngest declaration, with the built-in and reserved prefixes |
| `XmlnsStacks.XmlnsStack.PrefixForNs` | talk/xmllite/xmlnsstack.cc:92-110 | the backward loop finds the youngest prefix that is not shadowed |
| `XmlnsStacks.XmlnsStack.FormatQName` | talk/xmllite/xmlnsstack.cc:112-118 | formats a name with the prefix found, or without one |
| `XmlnsStacks.XmlnsStack.FindFree` | talk/xmllite/xmlnsstack.cc:177-185 | the retry loop ends with the first numbered prefix that is not in scope |
| `XmlnsStacks.XmlnsStack.AddNewPrefix` | talk/xmllite/xmlnsstack.cc:172-188 | declares a fresh prefix exactly if the namespace has none |
| `Escaping.PrintEscaped` | talk/xmllite/xmlprinter.cc:146-185 | the safe/unsafe loop replaces each unsafe character and copies the rest |
| `Escaping.EscapeTable` | talk/xmllite/xmlprinter.cc:146-185 | what each of the four characters is written as, and that no other changes |
| `Escaping.UnescapeEscape` | talk/xmllite/xmlprinter.cc:146-185 | replacing the predefined entities of the output gives the text back |
| `Escaping.EscapeIsClean` | talk/xmllite/xmlprinter.cc:146-185 | the output has no raw markup character and each ampersand starts an entity |
| `Printing.XmlPrinter.PrintElement` | talk/xmllite/xmlprinter.cc:69-144 | appends the text of the tree and leaves the namespace stack as it was |
| `Printing.XmlPrinter.PrintStartTag` | talk/xmllite/xmlprinter.cc:72-119 | declares what the tag needs and writes it with its attributes and the added declarations |
| `Printing.XmlPrinter.DeclareNeeded` | talk/xmllite/xmlprinter.cc:83-98 | adds a declaration for exactly the names whose namespace has no prefix |
| `Printing.PrintXml` | talk/xmllite/xmlprinter.cc:53-62 | printing a document starts from an empty stack |
| `RoundTrip.FrameSpec` | talk/xmllite/xmlprinter.cc:72-98 | inside a printed tag every name has a prefix and the added prefixes are fresh |
| `RoundTrip.FullAttrsDeclare` | talk/xmllite/xmlparser.cc:100-114 | the declarations of the printed tag, read in order, rebuild the printer's stack |
| `RoundTrip.NamableTagIff` | talk/xmllite/xmlparser.cc:106-109 | a tag is printed without an empty declaration exactly when it is namable |
| `RoundTrip.StartStep` | talk/xmllite/xmlparser.cc:95-119 | after a printed start tag the parser's stack equals the printer's and the element is open, or the tag is not namable and a syntax error is raised |
| `RoundTrip.ParseNode` | talk/xmllite/xmlbuilder.cc:88-123 | the tokens of a printed node attach the decorated node and restore stack and frames, or raise an error, exactly by whether the node is namable |
| `RoundTrip.PrintThenParse` | talk/xmllite/xmlelement.cc:485-495 | parsing a printed document gives the decorated tree if and only if it is namable |
| `RoundTrip.BuildAttrsOfFormatted` | talk/xmllite/xmlbuilder.cc:63-83 | the attributes of a printed tag resolve to themselves and pass the duplicate test |
| `RoundTrip.FormattedNamesDistinct` | talk/xmllite/xmlprinter.cc:103-108 | different names are spelled differently within a tag |
| `Documents.LexNode` | talk/xmllite/xmlprinter.cc:100-141 | the printed text of a node is tokenized to the node's tokens exactly when it is plain |
| `Documents.TextSpellsTokens` | talk/xmllite/xmlprinter.cc:100-185 | the text of a document spells its tokens if and only if its characters and its generated declarations are plain |
| `Misreading.DocumentRoundTrip` | talk/xmllite/xmlelement.cc:485-495 | reading the printed text gives the decorated tree if and only if the tree is plain and namable; plain and not namable is rejected |
| `Misreading.NotReadBack` | talk/xmllite/xmlprinter.cc:100-185 | a document that is not plain is rejected or read as another tree |
| `Misreading.RunShown` | talk/xmllite/xmlbuilder.cc:88-123 | until the root ends, the tags and letters of the tree being built, in document order, only grow |
| `Exactness.SameTokensIff` | talk/xmllite/xmlelement.cc:485-495 | the tokens of a tree are read as that very tree if and only if its text is joined and it declares what it uses |
| `Exactness.SameTextIff` | talk/xmllite/xmlelement.cc:485-495 | the printed text of a tree is read as that very tree if and only if, besides, its characters survive |
| `Exactness.FrameIsScope` | talk/xmllite/xmlprinter.cc:83-98 | the printer adds no declaration to a tag if and only if every namespace of it has a prefix by the declarations around it |
| `Lexing.ReadRawValue` | talk/xmllite/xmlprinter.cc:112-117 | a value written without escaping is read back exactly when it is plain |
| `Reprinting.DecorateKeepsTree` | talk/xmllite/xmlprinter.cc:69-144 | the tree that comes back differs from the one printed by added declarations only |
| `Reprinting.TokensAgain` | talk/xmllite/xmlbuilder_unittest.cc:41-160 | printing the tree that was read gives the tokens it was read from |
| `Reprinting.TextAgain` | talk/xmllite/xmlprinter.cc:100-141 | printing the tree that was read gives the text it was read from if and only if no generated namespace name needs escaping and no element has only empty text |
| `Reprinting.EscapedTheSecondTime` | talk/xmllite/xmlprinter.cc:110-119 | a tree that is read back and then printed differently, because its namespace has a '>' |
| `Reprinting.EmptyTextVanishes` | talk/xmllite/xmlprinter.cc:121-141 | an element with only an empty text child is printed differently after it was read |
| `Reprinting.UnqualifiedUnderDefault` | talk/xmllite/xmlnsstack.cc:172-187 | a concrete tree whose printed form the parser rejects |
| `Reprinting.UnescapedNamespace` | talk/xmllite/xmlprinter.cc:112-119 | a concrete tree whose printed text does not spell its tokens and is not read back |
| `Reprinting.TabBecomesBlank` | talk/xmllite/xmlprinter.cc:146-163 | a concrete tree with a tab in a value that is not read back |
| `Parsing.RunInStep` | talk/xmllite/xmlbuilder.cc:88-114 | on every error-free run the parents stack is as deep as the namespace frames, and the frames are nested |
| `Parsing.StepVisible` | talk/xmllite/xmlbuilder.cc:88-114 | the tree under the root has each element as soon as it starts, and ending one changes nothing |
| `Rereading.RunShaped` | talk/xmllite/xmlbuilder.cc:51-123 | in every run over spelled names each element, open or ended, is well named and its text is joined |
| `Rereading.ReadThenPrintIff` | talk/xmllite/xmlelement.cc:485-495 | the tree of any document that is read is printed and read back as it is if and only if it declares what it uses |
| `Rereading.RunInScope` | talk/xmllite/xmlparser.cc:100-114 | in every conforming run the parser's stack is what the open elements of the tree declare, and each element declares what it uses |
| `Rereading.ReadThenPrint` | talk/xmllite/xmlelement.cc:485-495 | the tree of every conforming document declares what it uses, so it is read back as it is |
| `Rereading.DeclarationInDisguise` | talk/xmllite/xmlparser.cc:100-114 | a document that is accepted while the printed form of its tree is rejected |
| `Rereading.DeclarationHidesAnother` | talk/xmllite/xmlprinter.cc:72-98 | a document that is accepted while the printed form of its tree is read as another tree |
| `Rewriting.ReadPrintReadIff` | talk/xmllite/xmlelement.cc:485-495 | for every text that is read and whose names are spelled as names, printing the tree and reading the text gives the same tree if and only if it declares what it uses |
| `Rewriting.ReadPrintRead` | talk/xmllite/xmlelement.cc:485-495 | for every conforming text that is read, printing its tree and reading the text gives the same tree |
| `Parsing.ChunkingIrrelevant` | talk/xmllite/xmlelement.cc:393-403 | the tree does not depend on how character data is cut into chunks |
| `XmlParsers.XmlBuilder.BuildElement` | talk/xmllite/xmlbuilder.cc:51-86 | the loop resolves all names and fails on an unresolved one or a repeated qualified one |
| `XmlParsers.XmlBuilder.StartElement` | talk/xmllite/xmlbuilder.cc:88-106 | attaches the built element to the current one or as the root at once and makes it current, or changes nothing |
| `XmlParsers.XmlBuilder.EndElement` | talk/xmllite/xmlbuilder.cc:108-114 | makes the parent current; the tree under the root stays the same |
| `XmlParsers.XmlBuilder.CharacterData` | talk/xmllite/xmlbuilder.cc:116-123 | joins the chunk to the current element's text, if there is one |
| `XmlParsers.XmlParser.StartNamespaces` | talk/xmllite/xmlparser.cc:100-114 | puts the declarations of a tag on the stack up to an illegal one |
| `XmlParsers.XmlParser.ExpatStartElement` | talk/xmllite/xmlparser.cc:94-119 | refines the step function and tells the handler unless an error was raised |
| `XmlParsers.XmlParser.ExpatEndElement` | talk/xmllite/xmlparser.cc:121-130 | refines the step function and tells the handler unless an error was raised |
| `XmlParsers.XmlParser.ExpatCharacterData` | talk/xmllite/xmlparser.cc:132-140 | refines the step function and tells the handler unless an error was raised |
| `XmlParsers.XmlParser.Parse` | talk/xmllite/xmlparser.cc:167-187 | delivers the callbacks, then reports the first error once and resets the handler |
| `XmlParsers.XmlParser.Reset` | talk/xmllite/xmlparser.cc:71-83 | clears stack, error and latch and leaves the handler alone |
| `XmlParsers.HandlerHears` | talk/xmllite/xmlparser.cc:94-140 | as long as no error is raised the handler is told of every token, in order |
| `XmlParsers.ErrorToken` | talk/xmllite/xmlparser.cc:94-119 | only a start tag raises an error, and the handler is told of it unless it declares a prefix to be empty |
| `XmlParsers.SessionsLatch` | talk/xmllite/xmlparser.cc:167-187 | over every sequence of calls the handler gets at most one error, last, with the code raised first |
| `XmlParsers.LatchAfterReset` | talk/xmllite/xmlparser.cc:71-83 | after a reset the handler again gets at most one error, whatever it was told before |
| `XmlParsers.DocumentAfterReset` | talk/xmllite/xmlparser.cc:71-83 | after a reset the next document is attached where the builder stands, so it is built as a fresh parser builds it if and only if no element was open |
| `XmlParsers.ResetInsideElement` | talk/xmllite/xmlparser.cc:71-83 | a reset inside an element after which the next document becomes a child of it |
| `XmlParsers.ReportedCode` | talk/xmllite/xmlparser.h:93-93 | the reported code is the callbacks' own if they raised one, otherwise the tokenizer's |
| `XmlParsers.NothingAfterError` | talk/xmllite/xmlparser.cc:94-140 | tokens after the one that raised an error reach no one |
| `Elements.AttrList.Value` | talk/xmllite/xmlelement.cc:175-209 | finds the first attribute of a name |
| `Elements.AttrList.AddAttr` | talk/xmllite/xmlelement.cc:377-382 | appends, with the tail pointer on the new node |
| `Elements.AttrList.SetAttr` | talk/xmllite/xmlelement.cc:211-227 | updates the first attribute of a name or appends one |
| `Elements.SetThenGet` | talk/xmllite/xmlelement.cc:175-227 | the value that is set is the value found, and all other names keep theirs |
| `Elements.ClearThenGet` | talk/xmllite/xmlelement.cc:175-246 | a name that is cleared has no value, and all other names keep theirs |
| `Elements.AttrList.ClearAttr` | talk/xmllite/xmlelement.cc:229-246 | removes the first attribute of a name and keeps the tail pointer right |
| `Elements.AttrList.ClearAttributes` | talk/xmllite/xmlelement.cc:465-473 | empties the list |
| `Elements.ChildList.AddText` | talk/xmllite/xmlelement.cc:393-420 | joins text to a text child under the tail pointer, or puts one after it, in place of whatever a stale pointer has behind it |
| `Elements.AddedTextLaws` | talk/xmllite/xmlelement.cc:393-420 | text added in two pieces is text added at once; it joins a last text child and follows anything else |
| `Elements.ChildList.AddElement` | talk/xmllite/xmlelement.cc:432-440 | appends the element after the tail pointer, in place of whatever a stale pointer has behind it |
| `Elements.ChildList.BodyText` | talk/xmllite/xmlelement.cc:143-149 | the text of a first child on which the tail pointer is: of an only child if the pointer is right |
| `Elements.ChildList.SetBodyText` | talk/xmllite/xmlelement.cc:151-162 | makes the text the only child, or removes all children for the empty text, or replaces the text under the tail pointer |
| `Elements.SetThenBody` | talk/xmllite/xmlelement.cc:143-162 | with a right tail pointer the text that is set is the body text, and nothing else is left |
| `Elements.ChildList.RemoveChildAfter` | talk/xmllite/xmlelement.cc:359-375 | removes one child; the tail pointer stays on its node, or moves to the one before if that is removed |
| `Elements.ChildList.InsertChildAfter` | talk/xmllite/xmlelement.cc:348-357 | inserts one child and leaves the tail pointer on its node; it is right afterwards if and only if it was and the child did not become the last |
| `Elements.InsertThenAdd` | talk/xmllite/xmlelement.cc:348-357 | a child inserted into an empty list is lost when text is added |
| `Elements.BodyTextInserted` | talk/xmllite/xmlelement.cc:143-149 | text inserted as the only child is not the body text |
| `Elements.BodyTextBehind` | talk/xmllite/xmlelement.cc:143-149 | text with a child inserted behind it still is the body text |
| `Elements.ChildList.ClearNamedChildren` | talk/xmllite/xmlelement.cc:450-463 | leaves exactly the children that are not elements of the name, in order, and the tail pointer on the last of them up to where it was |
| `Elements.ChildList.ClearChildren` | talk/xmllite/xmlelement.cc:475-483 | empties the list |
| `ElementCopy.Copy` | talk/xmllite/xmlelement.cc:83-120 | the copy is an equal tree, with attributes and CDATA flags, made of new objects only, with right tail pointers whatever those of the original are |
| `PubSub.StepEffect` | talk/xmpp/pubsubstateclient.h:189-238 | one event changes the state of at most one key; its signal names the nicks and the old state, and the new one except exactly for a state that only compares equal to the default |
| `PubSub.SilentIff` | talk/xmpp/pubsubstateclient.h:195-218 | an event is silent exactly if it retracts what is not there or its state compares equal to the one before |
| `PubSub.SignalsTelescope` | talk/xmpp/pubsubstateclient.h:189-238 | for every run and key the signals lead from the first state to the last without a gap |
| `PubSub.SignalIffChange` | talk/xmpp/pubsubstateclient.h:215-220 | with plain equality a signal fires exactly when the effective state of a key changes |
| `PubSub.RunStoresNoDefault` | talk/xmpp/pubsubstateclient.h:222-227 | with plain equality the default state is never stored |
| `PubSub.LateJoin` | talk/xmpp/pubsubstateclient.h:181-238 | replaying a disciplined history and receiving only the survivors, in any order, give the same two tables, for every comparison that never equates different states |
| `PubSub.RequestsAreDisciplined` | talk/xmpp/pubsubstateclient.h:133-145 | every history made by `Publish` calls is disciplined |
| `PubSub.LateJoinOfRequests` | talk/xmpp/pubsubstateclient.h:133-238 | late join equals full replay for everything `Publish` calls make |
| `PubSub.RequestsTakeEffect` | talk/xmpp/pubsubstateclient.h:133-238 | whatever is published on a node, of this kind of state and of others, each key ends with the state of the last request for it |
| `PubSub.LastRequestTakesEffect` | talk/xmpp/pubsubstateclient.h:133-145 | the same for requests of one kind alone |
| `PubSub.IdsApart` | talk/xmpp/pubsubstateclient.h:136-137 | different kinds of state on one node do not share items |
| `PubSub.PresentersTakeEffect` | talk/xmpp/hangoutpubsubclient.cc:73-119 | each nick presents in the end exactly if the last item for it says so |
| `PubSub.NamedItemsAreDisciplined` | talk/xmpp/pubsubstateclient.h:133-145 | items whose ids are made from their keys keep live items apart |
| `PubSub.LateJoinOfPresenters` | talk/xmpp/hangoutpubsubclient.cc:73-119 | presenter items are disciplined too, and late join equals full replay although no two states compare equal |
| `PubSub.EveryPresenterItemSignalled` | talk/xmpp/hangoutpubsubclient.cc:98-119 | every published presenter item is signalled, with its nicks and its state |
| `PubSub.SharedKeyBreaksLateJoin` | talk/xmpp/pubsubstateclient.h:195-206 | a history in which two live items share a key, for which late join differs |
| `PubSub.StepsCommute` | talk/xmpp/pubsubstateclient.h:189-238 | events on different items and keys commute, whatever the comparison |
| `PubSub.MessageOrderIrrelevant` | talk/xmpp/pubsubtasks.cc:124-145 | items before retracts gives the same tables as document order when items and keys are distinct |
| `PubSub.ParseEventItemsElem` | talk/xmpp/pubsubtasks.cc:124-145 | the two loops collect all items and then all retracts |
| `PubSub.PubSubStateClient.Publish` | talk/xmpp/pubsubstateclient.h:133-145 | publishing the default state retracts, any other state is published under its key |
| `PubSub.PubSubStateClient.OnItem` | talk/xmpp/pubsubstateclient.h:189-238 | refines the step function and its signal |
| `PubSub.PubSubStateClient.OnItems` | talk/xmpp/pubsubstateclient.h:181-187 | handles the events in order |
| `RosterContacts.RunMirrored` | talk/xmpp/rostermoduleimpl.cc:1021-1079 | in every run a copy kept from the notifications equals the contact list |
| `RosterContacts.RunFaithful` | talk/xmpp/rostermoduleimpl.cc:1021-1079 | in every run each notification agrees with the copy that the handler keeps: its index, the old version and the new list |
| `RosterContacts.ItemFaithful` | talk/xmpp/rostermoduleimpl.cc:1050-1073 | which notification an item causes: none, or removed, changed in place, or added at the end |
| `RosterContacts.FirstLoad` | talk/xmpp/rostermoduleimpl.cc:1042-1073 | the first load appends the valid items in order and notifies nothing itself |
| `RosterContacts.FirstLoadNotice` | talk/xmpp/rostermoduleimpl.cc:1074-1079 | the first load is notified exactly once, even if it is empty |
| `RosterContacts.StanzaKeepsDistinct` | talk/xmpp/rostermoduleimpl.cc:1042-1048 | a stanza keeps contacts distinct exactly when it is not a first load with a repeated contact |
| `RosterContacts.RunDistinct` | talk/xmpp/rostermoduleimpl.cc:1026-1048 | contacts are distinct throughout a run if and only if every stanza handled on an empty list names each contact once |
| `RosterContacts.DuplicateOnFirstLoad` | talk/xmpp/rostermoduleimpl.cc:1044-1048 | a first load with a repeated contact lists it twice |
| `RosterContacts.ItemsFollowTable` | talk/xmpp/rostermoduleimpl.cc:1050-1073 | after the first load the list changes as a table would: remove a known contact, otherwise store the item |
| `RosterContacts.RosterModule.InternalRosterItems` | talk/xmpp/rostermoduleimpl.cc:1020-1079 | the loop computes the list and the callbacks of a stanza |
| `RosterContacts.RosterModule.HandleItem` | talk/xmpp/rostermoduleimpl.cc:1032-1073 | updates, removes or adds one contact and notifies its index |
| `RosterPresence.ReplaySpec` | talk/xmpp/rostermoduleimpl.cc:963-1010 | after any run there is one entry per sender, in first-seen order, with the latest stanza |
| `RosterPresence.PresenceCache.InternalIncomingPresence` | talk/xmpp/rostermoduleimpl.cc:963-1010 | an update through the bucket changes the flat list's entry, a new sender is added to both |
| `RosterPresence.PresenceCache.BucketIsFilter` | talk/xmpp/rostermoduleimpl.cc:672-700 | each bucket shows the order-preserving part of the flat list |
| `RosterGroups.CountIsRightIff` | talk/xmpp/rostermoduleimpl.cc:441-528 | after any calls the reported count is never too high, and right if and only if no group was added after the last reset and before counting |
| `RosterGroups.CacheAfter` | talk/xmpp/rostermoduleimpl.cc:441-528 | after any calls the cache holds no count, the right count, or one that is too low because groups were added to none |
| `RosterGroups.RosterContact.GetGroupCount` | talk/xmpp/rostermoduleimpl.cc:441-460 | refines the step; right if and only if no group was added blindly among the calls so far |
| `RosterGroups.RosterContact.GetGroup` | talk/xmpp/rostermoduleimpl.cc:462-494 | for any access order, the group an uncached walk finds; counts as `GetGroupCount` does |
| `RosterGroups.RosterContact.AddGroup` | talk/xmpp/rostermoduleimpl.cc:496-512 | appends a group the contact does not have and increments the cached count |
| `RosterGroups.RosterContact.RemoveGroup` | talk/xmpp/rostermoduleimpl.cc:514-528 | drops the first group of that text and resets the cache, or leaves list and cache as they are |
| `RosterGroups.RosterContact.SetXmlFromWire` | talk/xmpp/rostermoduleimpl.cc:373-387 | replaces the element and resets the cache |
| `RosterGroups.CountBeforeAdding` | talk/xmpp/rostermoduleimpl.cc:507-509 | two groups added without counting first are counted as one |
| `Jids.PrepNodeSpec` | talk/xmpp/jid.cc:178-228 | a node is legal exactly if it has at most 1023 characters and none of the listed illegal ones; only its letter case changes |
| `Jids.PrepLabelSpec` | talk/xmpp/jid.cc:320-394 | a label is legal exactly if it has 1 to 63 letters, digits, hyphens or characters above 0x7F and a hyphen at neither end; only its letter case changes |
| `Jids.PrepLabelsSpec` | talk/xmpp/jid.cc:294-317 | a domain is legal exactly if all its labels are; only its letter case changes |
| `Jids.LabelsSpec` | talk/xmpp/jid.cc:294-317 | the labels are what stands between the dots |
| `Jids.PrepResourceSpec` | talk/xmpp/jid.cc:232-271 | a resource is legal exactly if it has at most 1023 characters; illegal characters become NULs |
| `Jids.NormaliseSpec` | talk/xmpp/jid.cc:80-94 | three legal parts are kept up to letter case, but for a domain that is too long; otherwise all are cleared |
| `Jids.SplitSpec` | talk/xmpp/jid.cc:44-69 | where a string is cut into node, domain and resource |
| `Jids.StrSpec` | talk/xmpp/jid.cc:96-112 | the text of an identifier, with or without node and resource |
| `Jids.PrepNodeIdempotent` | talk/xmpp/jid.cc:178-228 | a normalised node is a fixed point, of the same length, without '@' and '/' |
| `Jids.PrepLabelsIdempotent` | talk/xmpp/jid.cc:294-394 | a normalised domain is a fixed point, of the same length, without '@' and '/' |
| `Jids.PrepResourceIdempotent` | talk/xmpp/jid.cc:232-271 | a normalised resource is a fixed point of the same length |
| `Jids.CaseIrrelevant` | talk/xmpp/jid.cc:206-213 | node and domain normalise alike in either letter case |
| `Jids.NormaliseCases` | talk/xmpp/jid.cc:80-94 | an identifier is empty or in normal form with labels of 1 to 63 bytes, or exactly its domain was dropped for its length |
| `Jids.ParseStr` | talk/xmpp/jid.cc:44-112 | a valid identifier is what its text parses to |
| `Jids.NormaliseRoundTrip` | talk/xmpp/jid.cc:71-112 | the three-part constructor survives printing and parsing if and only if no domain is dropped while another part stays |
| `Jids.StringRoundTrip` | talk/xmpp/jid.cc:44-112 | the same for every string |
| `Jids.StrInjective` | talk/xmpp/jid.cc:96-112 | text determines a valid identifier and has at most 3071 bytes |
| `Jids.BareKeepsParts` | talk/xmpp/jid.cc:138-144 | the bare identifier keeps node and domain although it normalises again |
| `Jids.NodeWithoutDomain` | talk/xmpp/jid.cc:274-290 | a concrete domain that is dropped while the node stays |
| `Jids.ResourceAsIntended` | talk/xmpp/jid.cc:232-271 | a resource is normalised as the legality test intends if and only if it is too long or has no illegal character |
| `Jids.NormaliseAsIntended` | talk/xmpp/jid.cc:80-94 | three parts give the intended identifier if and only if no domain is dropped and no illegal resource is kept |
| `Jids.IllegalResourceAccepted` | talk/xmpp/jid.cc:232-271 | a concrete identifier with an illegal resource that is accepted |
| `Jids.ComputePrepNode` | talk/xmpp/jid.cc:178-202 | the loop computes the normalised node |
| `Jids.ComputePrepResource` | talk/xmpp/jid.cc:232-254 | the loop computes the normalised resource |
| `Jids.PrepDomainLabel` | talk/xmpp/jid.cc:320-357 | appends the normalised label to the buffer, or fails |
| `Jids.ComputePrepLabels` | talk/xmpp/jid.cc:294-317 | the one-pass loop normalises label by label |
| `Jids.ValidateOrReset` | talk/xmpp/jid.cc:80-94 | normalises the parts and clears all of them if one is invalid |
| `Chatroom.AllowedMoves` | talk/xmpp/chatroommoduleimpl.cc:428-441 | which moves the table allows to whom, and what each reports; an exit is voluntary exactly if it was requested |
| `Chatroom.StepReports` | talk/xmpp/chatroommoduleimpl.cc:172-604 | for every room and event the callbacks and the new state are those of a direct description without the table |
| `Chatroom.ReportsHaveCauses` | talk/xmpp/chatroommoduleimpl.cc:541-604 | in every run an exit is reported as requested only after the client asked to leave and has not entered since; other exits and refusals carry the code of the presence that caused them |
| `Chatroom.KickIsReported` | talk/xmpp/chatroommoduleimpl.cc:586-590 | being put out of a room is reported as such, with its code |
| `Chatroom.MembersHoldLatest` | talk/xmpp/chatroommoduleimpl.cc:487-521 | each member is listed with the last available presence that came from it |
| `Chatroom.CallStatus` | talk/xmpp/chatroommoduleimpl.cc:210-333 | what the calls return, and that a refused call changes nothing |
| `Chatroom.RunConsistent` | talk/xmpp/chatroommoduleimpl.cc:541-604 | in every run entries and exits alternate and their difference says whether the client is in the room |
| `Chatroom.NameIsFixed` | talk/xmpp/chatroommoduleimpl.cc:210-246 | the client's name in the room cannot change until it is out again |
| `Chatroom.RunTellsMembers` | talk/xmpp/chatroommoduleimpl.cc:487-521 | in every run the callbacks about a member agree with the member list |
| `Chatroom.RunKeepsHere` | talk/xmpp/chatroommoduleimpl.cc:210-222 | throughout a run every member is of the current room if and only if the client never goes to another room while members are listed |
| `Chatroom.MemberOfAnotherRoom` | talk/xmpp/chatroommoduleimpl.cc:541-604 | a concrete run after which a member of a room that was left is listed in another |
| `Chatroom.ChatroomModule.ChangeMyPresence` | talk/xmpp/chatroommoduleimpl.cc:541-604 | the table search decides the move, its legality and its callback |
| `Chatroom.ChatroomModule.OnStanza` | talk/xmpp/chatroommoduleimpl.cc:172-194 | dispatches a stanza of this room |
| `Chatroom.ChatroomModule.OnOtherPresence` | talk/xmpp/chatroommoduleimpl.cc:487-521 | adds, updates or removes one member and tells the handler |
| `Chatroom.ChatroomModule.SetChatroomJid` | talk/xmpp/chatroommoduleimpl.cc:210-222 | refused unless outside the room and bare |
| `Chatroom.ChatroomModule.SetNickname` | talk/xmpp/chatroommoduleimpl.cc:229-236 | refused unless outside the room |
| `Chatroom.ChatroomModule.RequestEnterChatroom` | talk/xmpp/chatroommoduleimpl.cc:274-316 | asks to enter from outside with a valid room and a nickname |
| `Chatroom.ChatroomModule.RequestExitChatroom` | talk/xmpp/chatroommoduleimpl.cc:318-333 | asks to leave from inside |
| `Ping.TimerIsIdeal` | talk/xmpp/pingtask.cc:41-77 | a run of the timers does what pinging in true time does if and only if the clock misleads no wake-up |
| `Ping.PingsAreSafe` | talk/xmpp/pingtask.cc:41-77 | in every run, pings are sent exactly when none was sent or the reply came and a period has passed, and the timeout fires exactly when no reply came and it has passed, if and only if the clock misleads no wake-up |
| `Ping.StepIsIdeal` | talk/xmpp/pingtask.cc:52-68 | one wake-up does what it should if and only if the clock does not mislead it |
| `Ping.SameTurn` | talk/xmpp/pingtask.cc:52-68 | with no wrap since the last ping, a wake-up is misled exactly when the period wraps, unless the reply is overdue and the timeout did not wrap |
| `Ping.NoWrapReadable` | talk/xmpp/pingtask.cc:52-68 | a run that stays within one turn of the clock is never misled |
| `Ping.WrapBreaksPacing` | talk/xmpp/pingtask.cc:55-68 | a concrete run in which a wrapped deadline loses the timeout and the next ping goes out at once |
| `Ping.WrapDelaysPing` | talk/xmpp/pingtask.cc:52-61 | a concrete run in which the clock wraps and a ping that is due is not sent |
| `Ping.PingTask.ProcessStart` | talk/xmpp/pingtask.cc:41-77 | refines the timed step |
| `Utf8.TruncateStatus` | talk/xmpp/presencereceivetask.cc:95-105 | the loop cuts at the last position up to 300 that passes the byte test, and leaves a status of at most 300 bytes as it is |
| `Utf8.Utf8Decodes` | talk/xmpp/presencereceivetask.cc:35-38 | valid text is the encoding of some characters |
| `Utf8.EncodedIsUtf8` | talk/xmpp/presencereceivetask.cc:35-38 | and every encoding of characters is valid text |
| `Utf8.FirstBytesAreBoundaries` | talk/xmpp/presencereceivetask.cc:35-38 | in valid text the byte test accepts only positions between characters |
| `Utf8.BoundariesAreFirstBytes` | talk/xmpp/presencereceivetask.cc:35-38 | and it accepts all of them |
| `Utf8.TruncationIsSafe` | talk/xmpp/presencereceivetask.cc:95-105 | every valid status is cut to its longest valid prefix of at most 300 bytes: itself if it is no longer, otherwise at least 297 bytes |

## Left out

- expat itself: `Lexing` stands in for it. It reads the XML that the printer emits and XML like it: positions, the XML declaration, comments, processing instructions, document types, CDATA sections, single quotes, character references, and white space in tags other than one blank before each attribute are not part of this model.
- Rewriting.ReadPrintReadIff: "every text" is every text of that syntax; names are those of Namespaces in XML.
- CDATA elements: the trees that are printed have no CDATA flag; `ElementCopy` has it.
- XmlParsers.XmlBuilder: the tree being built is a value, a path of open elements; the contracts state what the tree under the root is at each time, as `Tree()`. `ElementCopy` and `Elements` have the heap objects.
- XmlParsers.XmlParser.Parse: the callbacks and the status of one tokenizer call are its inputs, and the tokenizer ends only elements that are open.
- Elements.ChildList.AddElement: ownership of the added element and the `depth` variants of the Add methods are not modelled; deleting nodes is leaving them unreachable.
- ElementCopy.Copy: attributes and siblings are copied by recursion where the source loops.
- Namespaces.PrefixForInverse: the two strings of a declaration are one record, so the vector's length is half of the source's.
- XmlnsStacks.XmlnsStack.AddNewPrefix: the counter of the search is unbounded, not a 32-bit int.
- Ping.TimerIsIdeal: wake-ups come in the order of time.
- Jids.CaseIrrelevant: bytes above 0x7F are kept by `tolower`, as in the C locale; stringprep for them is not implemented in the source.
- Chatroom.RunConsistent: a handler is set throughout, and the engine is there; member enumerators, the XML of requests and the table that turns the codes of a presence into named reasons are not modelled.
- RosterPresence.PresenceCache.InternalIncomingPresence: only presence stanzas are passed in, as `HandleStanza` ensures; subscription requests and errors only forward to the handler.
- RosterContacts.RosterModule.InternalRosterItems: a handler is set throughout; contact objects are values.
- Sound devices, SASL, sockets, message queues, stanza construction in the task classes and the configuration headers: outside the model, or easy members only.
