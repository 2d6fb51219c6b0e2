# Pisces: a Dafny model with proofs

Pisces boots co-kernels ("enclaves") beside Linux. This project models the parts of it that carry an algorithm of
their own, and proves what they promise:

- **Xbuf**: the message protocol between two operating systems over one small buffer and five flag bits
  (`Xbuf.dfy` is the machine; `XbufSafety`, `XbufInvariant`, `XbufSteps` the invariant; `XbufTheorems` and
  `XbufProgress` the results for the owner of the buffer, `XbufContention` those for its competitors and for a disabled
  buffer; `XbufExact` what a disable can spoil, and exactly when). Every read and write of a shared
  word is one step, and a memcpy takes one step a byte, so overlapping copies are visible as such. Any number of
  clients compete, and `ready` may be lowered at any step. The steps change the record of the five flags; that the
  locked operations on the 64-bit word do the same to it is proved of `RaiseFlag`, `LowerFlag` and `ResetWord`.
- **Ezxml**: the XML parser and printer. `EzxmlEntities` is the circularity check, `EzxmlCodec` and `EzxmlDecode` the
  decoder (its meaning and its in-place loop), `EzxmlPlain` what decoding leaves alone, `EzxmlNumber` the references by
  number, `EzxmlAmp` the encoder,
  `EzxmlParser` and `EzxmlParse` the parser (as a function and as its loops), `EzxmlSyntax` documents as people
  write them and what they mean, `EzxmlDocument` what may stand around the root, `EzxmlRefused` and `EzxmlMalformed`
  documents that are refused, `EzxmlPrinter` the printer,
  `EzxmlRoundTrip` the law that ties parser and printer, `EzxmlThreads` and `EzxmlInsert` the triply linked child list,
  `Utf8` the UTF-16 transcoder.
- **Page tables**: `Pgtables` gives a four-level table its meaning as a translation, `PgtablesWalk` ties the two walkers
  to it and to the walk that a processor makes over the 64-bit words of memory, and `Trampoline` does so for the builder
  in `src/boot.c`.
- **Hashtable**: the chained table with prime growth, against a plain map.
- **Ringbuf** and **RingLock**: the early ring buffer as one caller sees it, and any number of threads on it under the
  test-and-set lock, one statement a step.
- **Iommu**, **Vfs**, **VmImage**: the page-splitting loops, the scatter/gather file calls, the image layout.

`dafny verify dfyconfig.toml` checks the whole project.

## How the code is represented

- Code that changes things step by step is a method with the loops of the source, or a class whose fields the methods
  update, and its contract names a function or states the result outright. The specification functions carry the
  lemmas. The two concurrent protocols are machines of atomic steps under an arbitrary schedule.
- A C string is the sequence of characters before its NUL, with a `char` below 0 as a code from 0x80 on. A pointer into a
  string that only moves forward is the rest of the string. strtol, strchr, strstr, strspn and strcspn are functions.
- Machine words wrap where the code lets them wrap: the hash values, `entry_count`, the values that `htable_inc` and
  `htable_dec` change, the u32 number of boot pages, the u64 sizes of the IOMMU loops. Elsewhere integers are unbounded
  and the contracts bound them (an image whose size fits in an int, addresses below 2^64).
- Allocation failures, driver verdicts, short reads and the answers of file calls are parameters, so that a contract
  holds for all of them.
- The server's handlers are an oracle from the bytes they received to the answer, and every choice they can make is some
  oracle. Interrupts are delivered once each and memory is sequentially consistent.

## What came out

- **A disable during the server's receive.** `lcall_kern_thread` goes on when `pisces_xbuf_recv` returns 0
  (src/pisces_lcall.c:71-83), so the thread answers a request that it saw only part of. A part is some of the chunks of
  total_size bytes, not none and not all (`XbufInvariant.Part`), so only a request longer than total_size has one. For
  every buffer size, request and server, some run makes both sides copy into the buffer at once if and only if the
  server answers some part of the request with a byte or more (`XbufExact.OverlapsExactly`); for a server that always
  answers with something, if and only if the request is longer than total_size (`XbufExact.OverlapsByLength`). And some
  call with the request returns 0 without its delivery if and only if the server answers some part of it with nothing
  (`XbufExact.MisreportsExactly`). Every call of `pisces_xbuf_complete` under src/ passes a structure of non-zero size, so
  the second is a possibility of the interface and not of these handlers, while the first is one of both.
- **An empty request** leaves the old `data_len` in place. At the moment it claims the buffer, the exchange is on its way
  if and only if that length is 0; otherwise no schedule without a disable ends it
  (`XbufProgress.EmptyRequestNeedsZeroLength`, `EmptyRequestHangs`), and such a state is reached over every buffer size
  and every other length (`XbufExact.HungIsReached`).
- **Entity values that are cut in the middle of a reference** pass the circularity check and make the decoder run for ever:
  two declarations after the predefined ones and a three-character text are given in `EzxmlDecode.ACircleAcrossASplice`.
  For values in which every reference ends inside the value, the decoder ends on every text (`EzxmlDecode.Decode`). This
  has one direction only: without it references form across splices, from the end of one value and whatever text follows,
  so that ending is a property of the whole rewriting of one text and of no condition on the declared values.
- **VT and FF in attribute values** come back as spaces, because the decoder asks `isspace` and the encoder does not
  escape them. A tree comes back from print and parse if and only if it has none there (`EzxmlRoundTrip.PrintThenParse`).
- **A zero-size descriptor** ends a file call, because the result starts at 0. Without a refused call the status is what
  stands before the first descriptor that is empty or lies past the length, or the rest of the file if that is less
  (`Vfs.Counts`, in the contracts of `VfsRead` and `VfsWrite`). So a call for the whole list moves the whole list if and
  only if no empty descriptor stands before another that is not (`Vfs.WholeListExactly`; a list that fails is in
  `Vfs.EmptyOneEndsACall`).
- **An error answer** skips to the next descriptor, and what comes next in the file goes there. In a file with room, the
  status bytes are the first bytes of the list if and only if no call moves bytes after an error (`Vfs.Kept`, in the same
  contracts); `Vfs.ErrorSkipsADescriptor` is a call that leaves out the first of two.
- **A CDATA section at the very end** of a document, after the root, is refused as unclosed, where a comment there is not:
  the parser takes the last character away before it looks for "]]>" (`EzxmlDocument.EndsWithMarkup`).
- **IOMMU sizes**: the loops come to 0 without wrapping exactly for whole 4KB pages, at least one (`Iommu.EndsExactly`).
- The comment at src/boot.c:124-129 speaks of 128MB of bootmem. The code maps up to the next 1GB boundary, and the
  model follows the code.
- **A key inserted twice** stands in the table twice, and then no dictionary fits it
  (`Hashtable.Table.TwiceIsNoDictionary`); `Insert` says what the entries are in every case, and what the dictionary is
  when the key is new.
- `build_image` does not look at the result of `read_file`; `VmImage.BuildImage` says what an incomplete read leaves intact.

## Model

| member | source | states |
|---|---|---|
| Xbuf.RaiseFlag | src/pisces_xbuf.c:70-75 | raising a flag sets that bit field of the word and leaves the other four alone |
| Xbuf.LowerFlag | src/pisces_xbuf.c:77-84 | lowering READY or STAGED clears that bit field and leaves the other four alone |
| Xbuf.ResetWord | src/pisces_xbuf.c:51-59 | a reset leaves READY as it is and clears the other four bits |
| XbufSafety.SenderKeeps | src/pisces_xbuf.c:95-158 | each step of a transfer keeps: the bytes handed over are those of the message, a staged chunk is in the buffer in full, and the hand-offs count is its length over total_size, rounded up |
| XbufSafety.ReceiverKeeps | src/pisces_xbuf.c:161-220 | each step of a receive keeps: what was read is the prefix of the sender's message, and STAGED is lowered only after the whole chunk was copied |
| XbufSteps.OwnerInv | src/pisces_xbuf.c:277-328 | every step of the client that owns the buffer keeps the invariant of the whole system |
| XbufSteps.IrqInv | src/pisces_xbuf.c:407-440 | every step of the interrupt handler keeps the invariant |
| XbufSteps.ThreadInv | src/pisces_lcall.c:52-136 | every step of the server thread (wait, receive, serve, complete) keeps the invariant |
| XbufTheorems.StepInv | src/pisces_xbuf.c:237-440 | whoever moves next, and if the buffer is disabled now, the invariant of the whole system holds after the step |
| XbufTheorems.RunInv | src/pisces_xbuf.c:237-440 | the invariant holds after every schedule of any length |
| XbufTheorems.OneOwnerOneActivation | src/pisces_xbuf.c:249-273 | in every reachable state at most one client is between acquiring PENDING and its final reset, and the server was activated once for each acquired message, but for one whose activation is still due |
| XbufTheorems.CopiesAreExclusive | src/pisces_xbuf.c:95-220 | in every reachable state no copy into or out of the buffer overlaps another, unless a disable cut the server's receive after a part of the request; so never for a request that fits in total_size |
| XbufTheorems.WakeUpIsNotLost | src/pisces_lcall.c:26-71 | with active_lcall set the waiting server thread is blocked only while the interrupt that wakes it is still running |
| XbufTheorems.RequestIsKept | src/pisces_xbuf.c:237-242 | no step of anybody changes the request of a call in progress |
| XbufTheorems.ReturnsZero | src/pisces_xbuf.c:277-328 | when sync_send returns 0 the client holds exactly the answer, the server had exactly the request unless a disable cut its receive after a part and its answer is empty, and the flags are back to READY alone |
| XbufTheorems.ReadyStays | src/pisces_xbuf.c:564-578 | only a disable lowers READY |
| XbufTheorems.RunDelivers | src/pisces_xbuf.c:113-220 | in every run without a disable each successful call delivered request and answer whole, in ceil(n / total_size) hand-offs each way |
| XbufTheorems.RunDeliversAnswered | src/pisces_xbuf.c:237-404 | in every run, with disables at any moment, each successful call with a non-empty answer delivered both messages whole |
| XbufProgress.SomeoneMoves | src/pisces_xbuf.c:277-328 | while READY is set, an unfinished exchange has a party whose next step lowers its rank, so nobody waits for ever |
| XbufProgress.StepNoLoss | src/pisces_xbuf.c:113-220 | no step of anybody raises the rank of an exchange (phase, request chunks left, answer chunks left) |
| XbufProgress.RunNoLoss | src/pisces_xbuf.c:113-220 | along a whole schedule the exchange returns or its rank does not rise |
| XbufProgress.RunGains | src/pisces_xbuf.c:113-220 | a schedule in which a party that can move gets its turn lowers the rank or ends the exchange |
| XbufProgress.EveryExchangeEnds | src/pisces_xbuf.c:277-328 | after as many rounds as the rank, in each of which every party gets a turn in any order and among any other events, the exchange has returned |
| XbufContention.FailsOnlyWhenDown | src/pisces_xbuf.c:249-333 | a call returns 0 or -1, and -1 in a step taken with READY down only |
| XbufContention.EnabledCallsSucceed | src/pisces_xbuf.c:237-333 | along every run without a disable a client that has called is in a call or its last call returned 0 |
| XbufContention.WaiterComesBack | src/pisces_xbuf.c:259-273 | a client that finds PENDING up touches nothing, gives the lock back, and three of its turns later is at the lock again with its call as it was, whatever the others do between |
| XbufContention.ClientClaims | src/pisces_xbuf.c:249-268 | with the lock and an enabled buffer free, a client at the lock owns the buffer after five of its turns, whatever the others do between, with PENDING and READY up, the other flags down and one claim more counted |
| XbufContention.BufferIsClaimed | src/pisces_xbuf.c:249-275 | the competing clients never block each other: an enabled buffer that somebody wants and nobody owns has an owner after at most seven rounds in which every client gets a turn, in any order and among any other events |
| XbufContention.OwnedIdleOrWanted | src/pisces_xbuf.c:249-275 | along every run without a disable the buffer has an owner, or nobody calls, or it is wanted in that sense |
| XbufContention.DisabledCallEnds | src/pisces_xbuf.c:113-333 | after a disable a call that has the lock or the buffer ends within a number of its own turns that its own record tells, even if nobody else ever moves |
| XbufContention.LateCallFails | src/pisces_xbuf.c:253-257 | after a disable a call that has not looked at READY yet can only return -1 |
| XbufProgress.EmptyRequestHangs | src/pisces_xbuf.c:277-320 | an empty request over a non-zero stale data_len never returns, whatever the schedule without a disable |
| XbufProgress.EmptyRequestNeedsZeroLength | src/pisces_xbuf.c:277-286 | at the moment an empty request claims the buffer it is on its way if and only if the stale data_len is 0 |
| XbufExact.PartIsReached | src/pisces_xbuf.c:161-220 | for every part of every request and every n, some run of the n-th exchange has the server stand right behind that part, with the client still waiting for its turn |
| XbufExact.OverlapsExactly | src/pisces_lcall.c:71-83 | for every size, request and server: some run, disabled at the right moment, makes both sides copy at once if and only if the server answers some part of the request with a byte or more |
| XbufExact.OverlapsByLength | src/pisces_xbuf.c:113-158 | for a server that always answers with something: if and only if the request is longer than total_size |
| XbufExact.MisreportsExactly | src/pisces_lcall.c:71-83 | for every size, request and server: some call returns 0 although the server did not get the request if and only if the server answers some part of it with nothing |
| XbufExact.HungIsReached | src/pisces_xbuf.c:277-286 | over every buffer size and every stale data_len but 0 a run of an empty request reaches the state that never returns |
| Utf8.EncodeIsRfc3629 | linux_usr/ezxml.c:441-447 | the encoder with the bit-counting rule gives the UTF-8 form of section 3 of RFC 3629 for every code below 0x110000 |
| Utf8.Str2Utf8 | linux_usr/ezxml.c:422-451 | None if and only if the first byte is neither 0xFE nor 0xFF; with a mark, the output for the UTF-16 of any scalar values in that byte order is the UTF-8 of the same values |
| Utf8.CodesAre | linux_usr/ezxml.c:432-438 | the codes read from well-formed UTF-16 are the scalar values that section 2.2 of RFC 2781 encodes there |
| Utf8.EncodeAllIsUtf8 | linux_usr/ezxml.c:440-448 | the output for scalar values is their UTF-8 text |
| Utf8.TranscodesUtf16 | linux_usr/ezxml.c:422-451 | for every text of scalar values, in either byte order with its mark, the output is the UTF-8 encoding of the same text |
| Utf8.AnyPair | linux_usr/ezxml.c:432-438 | after any well-formed text a surrogate of either half takes the next unit for its other half, whatever that is |
| Utf8.CutOff | linux_usr/ezxml.c:432-438 | a surrogate with no unit after it stands as it is |
| Utf8.OddByte | linux_usr/ezxml.c:432-433 | a single byte at the end is left alone |
| EzxmlEntities.EntOkExact | linux_usr/ezxml.c:268-279 | a text is rejected if and only if some chain of first-match references leads from it to a mention of the name |
| EzxmlEntities.CheckEntity | linux_usr/ezxml.c:268-279 | the loops of the check end and decide exactly that |
| EzxmlEntities.AdmittedIsRanked | linux_usr/ezxml.c:341-355 | an entity that the check admits keeps the first-match reference graph acyclic: every entity can be ranked above what it refers to |
| EzxmlEntities.DeclaredIsAcyclic | linux_usr/ezxml.c:341-355 | after any run of declarations from the predefined list on, the graph is acyclic, and the next declaration is admitted if and only if it closes no circle ("No Recursion", section 4.1 of XML 1.0) |
| EzxmlCodec.Splice | linux_usr/ezxml.c:193-201 | the meaning of a self-contained value followed by a text is the meaning of the value followed by the meaning of the text |
| EzxmlDecode.NormalizeLines | linux_usr/ezxml.c:164-169 | every CR LF and every other CR becomes one LF (section 2.11 of XML 1.0) |
| EzxmlDecode.NumberedRound | linux_usr/ezxml.c:175-190 | a character reference is replaced by its character in UTF-8, which is not scanned again; what is no reference is passed over |
| EzxmlDecode.NamedRound | linux_usr/ezxml.c:191-206 | a known entity reference is replaced in place by the entity's text, which is scanned again, and the rounds still to come go down |
| EzxmlDecode.Decode | linux_usr/ezxml.c:158-218 | for every text and every acyclic list of self-contained entities the in-place loop ends, with the meaning of the line-normalized text |
| EzxmlPlain.PlainMeaning | linux_usr/ezxml.c:171-208 | for every acyclic list of entities: CDATA text means itself, whatever it holds; text without a known reference means itself; such an attribute value means itself with each of the six white-space characters as a blank |
| EzxmlPlain.NoAmpersand | linux_usr/ezxml.c:191-205 | a text without '&' holds no reference |
| EzxmlPlain.NameMeans | linux_usr/ezxml.c:191-205 | a reference by name means what the text of the first entity that fits means, and what follows means what it would alone |
| EzxmlPlain.FiveNames | linux_usr/ezxml.c:836-837 | lt, gt, quot, apos and amp mean their characters in every text and attribute |
| EzxmlPlain.LineEnds | linux_usr/ezxml.c:164-169 | a text without CR stays; CR LF and a CR that no LF follows become LF, line by line |
| EzxmlPlain.PlainDecoded | linux_usr/ezxml.c:158-218 | a CDATA section as the parser decodes it is its text with the line ends normalized and nothing else changed |
| EzxmlDecode.ACircleAcrossASplice | linux_usr/ezxml.c:193-204 | two declarations after the predefined ones that the check admits, and a text that two rounds of the loop turn into itself, when values are not self-contained |
| EzxmlNumber.NumberIs | linux_usr/ezxml.c:178-180 | the scan reads every positive number that fits in a long back from its decimal or hexadecimal spelling, up to the ';' |
| EzxmlNumber.StrtolIs | linux_usr/ezxml.c:178-179 | strtol as section 7.22.1.4 of ISO C has it: white space, a sign, digits of the base, saturation at the ends of a long, and the end pointer behind the last digit |
| EzxmlNumber.ReferenceMeans | linux_usr/ezxml.c:175-190 | a reference to any character by number, in either base, means its UTF-8 form by section 3 of RFC 3629, and what follows means what it would alone |
| EzxmlNumber.NoNumberMeans | linux_usr/ezxml.c:178-180 | an '&' with digits that no ';' follows, or that are all 0, stands for itself |
| EzxmlAmp.AmpEncode | linux_usr/ezxml.c:667-688 | the escapes of the string, up to its NUL or the given length, are appended to the output |
| EzxmlAmp.EscapedIsSafe | linux_usr/ezxml.c:667-688 | escaped text holds no markup and no CR, and an escaped attribute value no quote, LF or TAB either |
| EzxmlAmp.AmpersandsEnd | linux_usr/ezxml.c:677-683 | every '&' in escaped text has a ';' after it |
| EzxmlAmp.EscapedPlain | linux_usr/ezxml.c:684 | text without such characters is not changed |
| EzxmlAmp.EscapesAre | linux_usr/ezxml.c:677-683 | what stands for each of them |
| EzxmlAmp.DecodeUndoesEncode | linux_usr/ezxml.c:158-218 | decoding undoes encoding: in text for every string, in an attribute if and only if the string has no VT and no FF |
| EzxmlParse.ReadAllAttrs | linux_usr/ezxml.c:501-533 | the attribute loop reads names with and without values up to the end of the tag, or reports the missing quote |
| EzxmlParse.CharContent | linux_usr/ezxml.c:233-254 | decoded text is appended to the text of the innermost open tag, and ignored outside the root |
| EzxmlParse.ReadMarkup | linux_usr/ezxml.c:493-581 | one markup (open, self-closing, closing tag, comment, CDATA) does to the open tags what the parser function says, with the same errors |
| EzxmlParse.ParseStr | linux_usr/ezxml.c:470-600 | the main loop ends on every document with the tree or the error that the parser function gives |
| EzxmlPrinter.WriteAttrs | linux_usr/ezxml.c:707-715 | attributes are printed in order and a later one of the same name is left out |
| EzxmlPrinter.WriteTags | linux_usr/ezxml.c:693-741 | tags are printed in order, with the parent's text between them, cut at their offsets and kept within bounds |
| EzxmlPrinter.PrintOneMore | linux_usr/ezxml.c:707-715 | one attribute more is printed after the others if its name is new, and not at all otherwise |
| EzxmlPrinter.PastTheEnd | linux_usr/ezxml.c:693-741 | a tag with an offset past the end of the text is printed as if it stood at the end |
| EzxmlPrinter.ToXml | linux_usr/ezxml.c:745-780 | the output for a root is its printed form |
| EzxmlSyntax.ReadAllWritten | linux_usr/ezxml.c:501-533 | the attribute loop reads every written attribute list: any white space around names and '=', either quote, any value without that quote, and names without a value, which get the empty one |
| EzxmlSyntax.NotQuoted | linux_usr/ezxml.c:512-531 | what follows a name and its '=' without a quote is no value: the value is empty and the scan goes on there |
| EzxmlSyntax.MarkupStep | linux_usr/ezxml.c:490-593 | parsing one written markup, whatever follows it, does exactly one thing to the innermost open tag: a sub tag at the end of its text, text with normalized line ends and no other change for CDATA, nothing for a comment |
| EzxmlSyntax.PiecesStep | linux_usr/ezxml.c:490-593 | parsing written content adds exactly what the content means: decoded text, sections, and tags at their offsets |
| EzxmlSyntax.ParseIsMeaning | linux_usr/ezxml.c:470-600 | every document of the syntax (tags, self-closing tags, attributes, text, CDATA, comments, nested to any depth) parses to the tree it means |
| EzxmlDocument.OutsideIsIgnored | linux_usr/ezxml.c:470-600 | with any text, comments and CDATA sections before and after the root, a document parses to what its root means |
| EzxmlDocument.NoRoot | linux_usr/ezxml.c:470-600 | a document of text, comments and sections alone has no root, and says so |
| EzxmlDocument.EndsWithMarkup | linux_usr/ezxml.c:557-567 | a comment may be the very end of a document, and a CDATA section may not |
| EzxmlDocument.SecondRoot | linux_usr/ezxml.c:493-495 | every document with a further tag after its root, whatever text, comments and sections stand between, is refused |
| EzxmlDocument.EndAfterRoot | linux_usr/ezxml.c:257-264 | a closing tag after the root closes nothing, and is refused and named |
| EzxmlRefused.WrongEnd | linux_usr/ezxml.c:257-264 | in every document, whatever stands before and after: a closing tag with another name than the innermost open tag is refused, and named |
| EzxmlRefused.NeverClosed | linux_usr/ezxml.c:596-599 | every document whose text ends inside a tag, at any depth and after any content, is refused, and the innermost open tag named |
| EzxmlMalformed.MalformedIsRefused | linux_usr/ezxml.c:493-582 | at any depth and after any content: a stray '<', a comment or section without an end, two dashes in a comment, a tag cut off at the end, a '/' without its '>', an attribute value without its closing quote; each gets its own error |
| EzxmlRoundTrip.NodeShown | linux_usr/ezxml.c:693-741 | the printed form of a valid tree is one of the documents of the syntax |
| EzxmlRoundTrip.MarkupMeans | linux_usr/ezxml.c:693-741 | and that document means the tree, with VT and FF in attribute values turned into spaces |
| EzxmlRoundTrip.ParseOfPrint | linux_usr/ezxml.c:470-600 | parsing the printed form of any valid tree gives the tree back, with VT and FF in attribute values turned into spaces |
| EzxmlRoundTrip.PrintThenParse | linux_usr/ezxml.c:667-741 | for every valid tree, print and parse rebuild it if and only if no attribute value holds a VT or FF |
| EzxmlThreads.ThreadKept | linux_usr/ezxml.c:868-883 | an insertion at any place keeps the sibling thread rising from the first child and keeps the first child of every name in it |
| EzxmlThreads.AppendedOnce | linux_usr/ezxml.c:868-883 | a child that comes last joins the sibling thread if and only if its name is new, so in document order each name stays in it once |
| EzxmlThreads.OrderedIsStableSort | linux_usr/ezxml.c:857-866 | after any insertions with any offsets the ordered list is the stable sort of the insertions: sorted, a permutation, and in order of insertion at each offset |
| EzxmlInsert.InsertOrdered | linux_usr/ezxml.c:857-866 | the links make the tag stand after all that have its offset or a smaller one |
| EzxmlInsert.InsertNext | linux_usr/ezxml.c:870-874 | a later tag of a name enters the next chain of that name at its place, and every other chain stays |
| EzxmlInsert.InsertFirst | linux_usr/ezxml.c:875-883 | a first tag of a name joins the sibling thread at its place, and the old first one leaves it unless it is the head |
| EzxmlInsert.InsertTag | linux_usr/ezxml.c:849-888 | all three threads are again those of the child list with the tag put in at its place |
| EzxmlInsert.Child | linux_usr/ezxml.c:60-65 | the walk along the siblings finds the first child of the name in document order, or null |
| EzxmlInsert.Idx | linux_usr/ezxml.c:69-73 | from there, idx steps reach the child number idx of that name, or null |
| EzxmlInsert.InsertAll | linux_usr/ezxml.c:849-888 | any number of tags put in one after another at any offsets, into a tag without sub tags: the sub tags and their offsets are those of the stable order, all three threads are right, and in document order each name is in the sibling thread once |
| EzxmlInsert.InsertThenFind | linux_usr/ezxml.c:60-73 | after any such insertions ezxml_child and then ezxml_idx return the tag number idx of the name in the stable order, or null |
| EzxmlInsert.PositionsAre | linux_usr/ezxml.c:69-73 | the positions that are counted are all the children of that name, in order |
| Pgtables.DumpPgtables | src/pgtables.c:17-85 | for every table and address, over the 64-bit words of any memory that holds the table: the address and size of the page that the processor finds, or the level at which it finds nothing |
| Pgtables.LookupIsProcessors | src/pgtables.c:17-85 | what a table means is what a processor finds that masks the address bits 12, 21 or 30 to 51 out of the words |
| Pgtables.TranslateIsProcessors | src/pgtables.c:17-85 | and a translated address is the page found and the offset in it |
| Pgtables.SomeWords | src/pgtables.c:17-85 | every memory of tables is held by some words |
| PgtablesWalk.WalkIsAscending | src/pgtables.c:115-199 | the list of pages is in ascending order, without overlaps, within what the table covers |
| PgtablesWalk.WalkFinds | src/pgtables.c:115-199 | at every level, a page is listed from an entry on if and only if a lookup of an address it covers finds it |
| PgtablesWalk.WalkerAndLookupAgree | src/pgtables.c:17-199 | for every table and 48-bit address, dump_pgtables finds a page if and only if walk_pgtables lists it, once |
| PgtablesWalk.WalkListsAll | src/pgtables.c:115-199 | over the words of memory: for each of the 2^48 addresses the page that the processor finds is listed, with its address and size, and nothing is listed for an address that has none |
| PgtablesWalk.WalkPgtables | src/pgtables.c:88-202 | the four loops list exactly the pages that the processor finds, in ascending order without overlaps, with the running address equal to the address composed from the loop indices at every step |
| Trampoline.Boot.InitPgts | src/boot.c:20-59 | whatever the pages held, afterwards only the first 2MB are mapped |
| Trampoline.Boot.FillPd | src/boot.c:176-187 | exactly the absent entries of the run are filled, with consecutive 2MB pages, and nothing else changes |
| Trampoline.Boot.MapBlock | src/boot.c:132-189 | the entries on the way are made only where absent, in whichever tables that leads to, and the page directory is filled to its end at most |
| Trampoline.EntryIs | src/boot.c:130-256 | what the built tables hold for every triple of indices, in each of the three positions of bootmem |
| Trampoline.TranslatesAsBuilt | src/boot.c:130-256 | the tables translate every canonical address as expected |
| Trampoline.MayWriteAsBuilt | src/boot.c:130-256 | whatever the built tables translate may be written: every entry on the way is writable |
| Trampoline.Boot.Setup | src/boot.c:111-256 | a size that is no multiple of 2MB changes nothing; otherwise, whatever memory held, translation maps the first 2MB and bootmem to themselves and KERN_VA_BASE + k to bootmem + k, each up to a 1GB boundary, and nothing else, and all of that may be written |
| Hashtable.TablesAre | src/util-hashtable.c:159-177 | every prime fits in 32 bits, every load limit is 65 percent of its prime, rounded up, and each prime is about twice the one before |
| Hashtable.SomeScrambled | src/util-hashtable.c:64-74 | the scrambled form of four hash values |
| Hashtable.Table.constructor | src/util-hashtable.c:181-224 | the table is empty and has the first prime size above the minimum |
| Hashtable.Table.Create | src/util-hashtable.c:181-224 | null exactly for a size above 2^30 or a failed allocation, else an empty table |
| Hashtable.Table.FoundInBucket | src/util-hashtable.c:425-447 | the chain of a key's bucket has an entry for it if and only if the map has the key, and it is that entry |
| Hashtable.Table.Search | src/util-hashtable.c:425-447 | the value that the map gives the key, or 0 |
| Hashtable.Table.Insert | src/util-hashtable.c:312-344 | under any allocation outcome and for any key the entries gain exactly the new one or are unchanged, for a new key the map gains it, entry_count stays the number of entries modulo 2^32, and the table grows exactly when the count with the new entry is over the load limit, memory is there and a larger prime is |
| Hashtable.Table.TwiceIsNoDictionary | src/util-hashtable.c:312-344 | after a second insertion of a key no map describes the entries |
| Hashtable.Table.Remove | src/util-hashtable.c:451-489 | the value of the key or 0, and the map without the key |
| Hashtable.Table.Change | src/util-hashtable.c:347-372 | the map with the new value for a key that is there, else unchanged |
| Hashtable.Table.Inc | src/util-hashtable.c:376-396 | the map with the value raised modulo 2^64 for a key that is there, else unchanged |
| Hashtable.Table.Dec | src/util-hashtable.c:400-420 | the map with the value lowered modulo 2^64 for a key that is there, else unchanged |
| Hashtable.Table.MovedOne | src/util-hashtable.c:250-259 | taking an entry from an old chain and putting it before its new one loses and adds nothing, and it stands in bucket hash mod size |
| Hashtable.Table.Rehash | src/util-hashtable.c:247-261 | the loops end, keep the multiset of entries, and leave each in its bucket |
| Hashtable.Table.Expand | src/util-hashtable.c:227-306 | growth keeps the map and the entries and raises the limit; at the last prime or without memory everything stays as it was |
| Ringbuf.WrittenAppends | src/pisces_ringbuf.c:59-98 | a write into free space at the write index, wrapped or not, appends to what the buffer holds |
| Ringbuf.ReadTakes | src/pisces_ringbuf.c:102-135 | moving the read index, wrapped or not, drops exactly the bytes that were read |
| Ringbuf.EarlyRingbuf.Write | src/pisces_ringbuf.c:59-98 | all of the data is appended if it fits, and otherwise -1 and nothing; both indices may rest at size |
| Ringbuf.EarlyRingbuf.Read | src/pisces_ringbuf.c:102-135 | exactly the oldest bytes come out, in order, if there are enough, and otherwise -1 and nothing |
| RingLock.StepInv | src/pisces_lock.c:38-53 | every statement of every thread keeps the invariant: the lock word says whether a thread is inside, and that thread's operation is consistent at each of its statements |
| RingLock.OneInside | src/pisces_lock.c:38-53 | under every schedule of any number of threads at most one is in a ring operation |
| RingLock.ReadsArePrefix | src/pisces_ringbuf.c:59-135 | under every schedule of writers and readers the bytes read are a prefix of the bytes written, and while the lock is free the ring holds exactly the rest |
| RingLock.OperationEnds | src/pisces_ringbuf.c:59-135 | a thread with the lock has its answer within six own turns, whatever the others do: true with all of its bytes moved in order if the operation fits the ring it found, and false with none otherwise |
| RingLock.CallIsKept | src/pisces_lock.c:38-53 | a call goes on with its own operation until its answer is ready |
| RingLock.LockGoesRound | src/pisces_lock.c:50-53 | the thread with its answer gives the lock back, and the next one to try it gets in |
| RingLock.SomebodyGetsIn | src/pisces_lock.c:38-48 | the lock never stays free before a waiting thread: two turns of one of them, among any turns of others, and somebody has it |
| Iommu.EndsExactly | src/enclave_pci.c:454-471 | the loop comes to size 0 without a subtraction that wraps if and only if the size is a positive multiple of 4096 |
| Iommu.RoundsAre | src/enclave_pci.c:454-471 | the rounds are size / 0x200000 large ones and then 0x1000 ones |
| Iommu.MapRegion | src/enclave_pci.c:440-473 | under any verdicts of the driver exactly a prefix of the range is mapped, page k from the guest base on to page k from the host base on, in those rounds, and all of it if and only if the result is 0 |
| Iommu.UnmapRegion | src/enclave_pci.c:507-542 | exactly the pages before the first hole are unmapped, and the result is 0 if and only if there is none |
| Iommu.UnmapUndoesMap | src/enclave_pci.c:440-542 | unmapping a range that was free before it was mapped has no hole and restores the mapping everywhere |
| Vfs.AddrInjective | src/enclave_fs.c:203-240 | the bytes of a list of buffers that do not overlap have different addresses |
| Vfs.FilledMore | src/enclave_fs.c:214-233 | one more short read extends what is filled by the next places of the descriptor and touches nothing else |
| Vfs.WholeListExactly | src/enclave_fs.c:203-233 | what a call for the whole list wants is the whole list if and only if no empty descriptor stands before one that is not empty |
| Vfs.EmptyOneEndsACall | src/enclave_fs.c:203-233 | a list of three descriptors of which such a call moves the first only |
| Vfs.VfsRead | src/enclave_fs.c:203-240 | under any answers, the places that were filled hold the file's bytes from the offset, in order, and no other memory changed; with room in the file they are the first of the list if and only if no call moves bytes after an error; without a refusal status is what is wanted or the rest of the file, and never more without an error |
| Vfs.ErrorSkipsADescriptor | src/enclave_fs.c:214-233 | an error for the first of two descriptors: the first byte of the file lands in the second |
| Vfs.VfsWrite | src/enclave_fs.c:279-312 | under any answers, the file is overwritten from the offset with exactly the bytes at the places written, in order; they are the first of the list if and only if no call moves bytes after an error; without a refusal status is what is wanted; and the loop goes over every descriptor unless the status reaches the length, one is empty, or the last call moved nothing |
| Vfs.ReadBack | src/enclave_fs.c:203-312 | what was written through one list and read back through another of the same total size is the same bytes |
| VmImage.ReadFile | linux_usr/v3_create.c:47-68 | all bytes are in place if the result is 0, under any short reads; and it is 0 if and only if the file is long enough and no call that was made failed or ended it |
| VmImage.BuildImage | linux_usr/v3_create.c:212-293 | null exactly when a file cannot be opened; in every case the bytes before the file data are right one by one (the mark "v3vee", the lengths, the XML, the zeros, the headers), and when every read is complete, which is so if and only if no call that was made was refused, a reader recovers the XML and every file |
| VmImage.ReaderRecovers | linux_usr/v3_create.c:212-293 | a reader that checks the three marks and follows the lengths and headers recovers the XML and every file, for any XML and files |
| VmImage.MarksMatter | linux_usr/v3_create.c:241-273 | and it refuses the image if any byte of the marks is another one |
| VmImage.RegionsAreDisjoint | linux_usr/v3_create.c:253-290 | the file regions come after the headers, do not overlap, and end with the image |

## Left out

- Xbuf: re-enabling a buffer during a transfer, clients asleep on `pending` after a disable, a NULL response pointer and a
  missing receive handler; the code promises nothing for the first two, and the modelled callers never do the others.
- Xbuf: weak memory ordering, lost or doubled IPIs, and kthread_should_stop; the model has one memory and one delivery.
- EzxmlDecode.NormalizeLines: a text whose last character is CR makes the code step over the NUL and go on behind it; the
  model stops at the end of the text.
- EzxmlDecode.Decode: a character number of 42 bits or more shifts by a negative count, which has no meaning in C, and a
  negative multiple of 256 stores a NUL; the model gives such numbers some character.
- EzxmlDecode.Decode: the '%' and '*' decode modes, which only DTDs reach, and the growing of the buffer.
- Ezxml: DTD parsing (the entity list is modelled from the declared names and values on), default attributes, and
  processing instructions. The parser function reports a document with them as not modelled.
- EzxmlPrinter.WriteAttrs: two attributes of one name that both lack a value share one empty literal and are both printed by
  the code; the model prints the first. Valid trees have unique names.
- EzxmlParse.ParseStr: error texts and positions; each error is a constructor. The tree built before an error is dropped.
- EzxmlInsert: `ezxml_cut` and the freeing of tags. Cutting the first child can make a later one of its name unreachable.
- EzxmlInsert.Idx: a negative idx, with which the code walks to the end of the chain.
- Pgtables: user, cache and no-execute bits, which no code here reads; the printed lines are values.
- Pgtables.DumpPgtables and PgtablesWalk.WalkPgtables: the null table pointer that both refuse.
- PgtablesWalk.WalkPgtables: the running address is not sign-extended, so pages of the upper half are listed by their low 48
  bits, as in the code.
- Trampoline: the installation of the trampoline code, APIC and INIT/SIPI sequences, and the mutex.
- Hashtable.Table.Search: requires that no key is in the table twice; the header calls the value that comes back otherwise
  undefined.
- Hashtable.Table.Expand: the realloc path after a failed allocation (src/util-hashtable.c:267-298), which copies and clears
  by element count rather than by bytes; the model has the failure of both allocations.
- Hashtable: chain links as pointers; a chain is a sequence. Freeing of keys, values and tables is not modelled, and the
  equality function is equality.
- Ringbuf: `pisces_early_ringbuf_is_full`, which tests for non-empty.
- Iommu: what a driver does inside one call; a map call maps all or nothing, and an unmap call stops at the first hole.
- Vfs: the lookup of the file handle and the response message.
- VmImage: the parsing of the file tags, the MAX_FILES bound (at most 256 files are required), and writing the image out.
- Queues, reference counts, memory descriptors, proc files, ioctl dispatch, consoles and command-line tools: they would only
  add easy members.
