# Verified model of the JSON stack, the Breeze transport and the resumable download

The project models four components and proves what they promise.

**JSON (`lib_jsmn`).** The tokenizer (strict mode, parent links) is a class that advances
`pos`, `toknext` and `toksuper` and writes the token array in place. It is proved equal to a
machine on values (`JsmnMachine`), that machine is simulated by a stack machine on token trees
(`JsmnStack`), and the stack machine accepts exactly a grammar (`JsonGrammar.Spells`). From this
follow soundness and completeness, the meaning of the error codes, resumption after any cut,
the counting mode, and the shape of the token array. The query layer (`JsonLookup`, `JsonWalk`,
`JsonSearch`, `JsonNumber`, `JsonWrappers`), the bounded generator (`JsonText`, `JsonGenerator`),
the escaper (`JsonEscape`) and the documents that are written with them (`JsonDoc`) meet in
`JsonQuery.RoundTrip`: what was written is parsed into the document's own tree, and every path
through it finds what was stored. `JsonReach` says how far this goes in documents of any size.
`JsonRfc` has the texts of RFC 8259 with all their white space: which of them are accepted, and what
their tokens are. `JsonOutput` shows that the generator writes such texts.

**Breeze transport (`lib_breeze`).** `BreezeRx` is the reassembling receiver, `BreezeTx` and
`BreezeSender` the fragmenting sender with a link that may refuse any packet, `BreezeDelivery`
which messages such a link lets through, `BreezeModes` in which way their packets are sent,
`BreezeWire` what can be seen of them on the link, and `BreezeTransport` puts sender and receiver
together. `BreezeAuth` is the handshake and its key,
`BreezeExtCmd` the TLV request and response. The block cipher is a pair of functions on whole
blocks, one undoing the other.

**SHA-256.** `Sha256Spec` and `Sha256Words` state FIPS 180-4 (sections 4, 5.1.1, 5.3.3, 6.2.2);
`Sha256` is the byte-fed context. The computation is stated over any set of word operations, of
which the 32-bit words are one instance. `Sha256Constants` derives the constants from the roots of
the first primes, `Sha256WordFacts` says what the word operations do, and `Sha256Example` computes
the published digest of "abc" round by round.

**Resumable download (`lib_http_file_download`).** `HttpDownload` is the retry and resume protocol
against a server that honours `Range` (section 3.1 of RFC 7233), `HttpDownloadResult` says when a
download ends and with which result, and `HttpDownloadThread` is the context with its loops.

Where the code does something that its interface does not suggest, the model follows the code and
the exact condition is proved:

- The generator puts a comma before an object only after `}` and before an array only after `]`:
  `JsonDoc.WrittenIffSeparable` says for which documents the text is the right one, and
  `JsonDoc.MixedNotSeparated` gives documents for which it is not.
- Children are counted in 8 bits. `JsonWrappers.SkipToLast` ends where it should exactly if no
  container below has 256 children. In a written document of any size a path finds what is stored
  there exactly if every step on the way is to one of the first `members % 128` members or
  `elements % 256` elements, and everything that stands before these is free of objects with 128
  members and arrays with 256 elements (`JsonReach.FoundIff`, `JsonReach.GetReaches`). So in an
  object of 128 members not even the first is found (`JsonReach.FirstOf128`), nor in an array of
  256 elements (`JsonReach.FirstOf256`), nor a member behind such an array
  (`JsonReach.BehindLongArray`).
- `json_get_value` says "not found" exactly of an object whose size is even and not zero, if all
  keys that the size counts are strings other than the one asked for (`JsonLookup.NotFoundIff`).
  With a size of zero or an odd one it returns `-WM_E_JSON_FAIL`.
- The calls that set an array element return `WM_E_JSON_INVSTART` without the minus sign: a caller
  who tests for a negative code sees every failure but this one (`JsonText.FailureSeenIff`).
- `json_get_val_int` reads with `strtoul`: a number comes back exactly if it is in the range of
  the signed type (`JsonNumber.NarrowedIff`, `JsonQuery.NumbersComeBack`).
- A refused `transport_tx` has already written `tx.encrypted` (`BreezeModes.BusyWritesFlag`). The
  packets of every message are sent in one way, at every point of a run, exactly if at each packet
  that is not the first of its message the flag (as the last call, refused or not, has left it), the
  key and `g_dn_complete` are those with which the message was accepted
  (`BreezeModes.FreshAlikeIff`). A refused call can change the rest of a message
  (`BreezeModes.RefusedCallFlips`), and a second one can change it back in time
  (`BreezeModes.RefusedCallsFlipBack`). So the rest of a status report can go out in clear although
  there is a key (`BreezeWire.StatusInClear`); exactly when this happens to a message that should be
  encrypted is `BreezeWire.FreshSecretIff`.
- A message that was accepted can be lost, although the call reports success. A notification is
  delivered exactly if it has bytes or the link takes its packet
  (`BreezeDelivery.NotificationDeliversIff`); an indication can be delivered exactly if the link
  takes every packet of it at the first attempt (`BreezeDelivery.IndicationDeliversIff`). If the
  first packet is refused, the sender stays busy with nothing sent until a timeout or a reset
  (`BreezeDelivery.StuckRun`, with one byte as an instance: `BreezeDelivery.OneByteStuck`); if the
  indication is empty, it is gone at once (`BreezeDelivery.IndicationGoneIff`).
- The handshake compares no more bytes than came. A peer is authenticated exactly if its data agree
  with "Hi,Server" and "OK" as far as they go (`BreezeAuth.PeerAuthenticatedIff`); it sent the whole
  of both texts exactly if its data were long enough (`BreezeAuth.DoneTexts`), and one byte of each
  is enough (`BreezeAuth.OneByteAuthenticates`).
- A text of RFC 8259 that ends in a primitive, as `12` does, is never accepted; every other one is
  (`JsonRfc.RfcAccepted`, `JsonRfc.EndingIsPartial`).
- A data callback that takes some packets of a receive and refuses another leaves `download_len`
  behind the bytes it took: exactly this case is `HttpDownload.CountedUnlessRefused`, with 2001
  bytes as an instance (`HttpDownload.RefusedSecond`).

## Model

| member | source | states |
|---|---|---|
| JsmnScan.PrimitiveAccepted | lib_jsmn/jsmn.c:37-81 | the scan of a primitive stops at a position exactly if the text up to there is a non-empty run of printable characters without delimiters, before a delimiter |
| JsmnScan.StringAccepted | lib_jsmn/jsmn.c:86-148 | the scan of a string stops at a quote exactly behind plain characters, two-character escapes and \uXXXX |
| JsmnScan.StringStable | lib_jsmn/jsmn.c:86-148 | the verdict on a string, once given, does not change when more text follows |
| JsmnScan.PrimitiveStable | lib_jsmn/jsmn.c:37-81 | the same for primitives |
| JsmnMachine.LexicalClasses | lib_jsmn/jsmn.c:44-57 | which characters end a primitive, are part of one or begin one, stand between lexemes, and follow a backslash |
| JsmnStack.StepSim | lib_jsmn/jsmn.c:153-276 | one turn of the parser on the flat token array is one turn of a stack machine on token trees |
| JsmnStack.RunSim | lib_jsmn/jsmn.c:153-276 | so is a whole call, with NOMEM exactly if the trees outgrow the array |
| JsmnStack.WalkFindsTop | lib_jsmn/jsmn.c:184-209 | the walk of a closing bracket along the parent links ends at the innermost open container |
| JsmnStack.OpenIffOnStack | lib_jsmn/jsmn.c:184-209 | the open tokens are exactly the containers on the stack |
| JsonForest.FlatLinked | lib_jsmn/jsmn.c:153-276 | the preorder of a forest has every parent before its child |
| JsonForest.FlatAppend | lib_jsmn/jsmn.c:165-182 | appending a tree appends its tokens and leaves the others where they are |
| JsonGrammar.ReadForest | lib_jsmn/jsmn.c:153-276 | text that spells a forest is read as that forest |
| JsonGrammar.SpellsRun | lib_jsmn/jsmn.c:153-276 | text that was read spells what was read |
| JsmnTheorems.ParseComplete | lib_jsmn/jsmn.c:153-276 | a text that spells a forest is parsed into its preorder if there are tokens enough, and gets NOMEM otherwise |
| JsmnTheorems.ParseSound | lib_jsmn/jsmn.c:153-276 | a text that is accepted spells a forest, and the tokens are its preorder |
| JsmnTheorems.ParseIff | lib_jsmn/jsmn.c:153-276 | accepted within n tokens if and only if the text spells a forest of at most n tokens |
| JsmnTheorems.SpellsUnique | lib_jsmn/jsmn.c:153-276 | the grammar is unambiguous |
| JsmnTheorems.ResumeOnce | lib_jsmn/jsmn.c:153-276 | after any outcome, PART and NOMEM included, a call with longer text and more tokens ends as one fresh call with them |
| JsmnTheorems.ResumeMany | lib_jsmn/jsmn.c:153-276 | the same for any number of pieces cut anywhere |
| JsmnTheorems.CountAgrees | lib_jsmn/jsmn.c:65-69 | the counting mode returns the number that a successful parse returns, which is the number of tokens |
| JsmnTheorems.CountSuffices | lib_jsmn/jsmn.c:100-102 | a parse with as many tokens as the counting mode says never returns NOMEM |
| JsmnTheorems.CountIsExact | lib_jsmn/jsmn.c:153-276 | an acceptable text is accepted with n tokens if and only if the count is at most n |
| JsmnErrors.ErrorMeaning | lib_jsmn/jsmn.c:236-276 | PART if and only if some longer text is accepted, INVAL if and only if none is |
| JsonShape.AcceptedIsTree | lib_jsmn/jsmn.c:153-276 | every accepted token array is a tree: parents first, contiguous subtrees, nested text ranges, and sizes equal to child counts modulo 256 |
| JsonShape.ChainAlways | lib_jsmn/jsmn.c:184-209 | at every point of every parse, however interrupted, the open tokens are exactly toksuper and its ancestors |
| JsonShape.CloserNeverIgnored | lib_jsmn/jsmn.c:184-209 | a closing bracket closes toksuper or is an error; the silent way out of the walk is unreachable |
| Jsmn.Parser.AllocToken | lib_jsmn/jsmn.c:8-21 | a token is handed out unless all are in use |
| Jsmn.Parser.ParsePrimitive | lib_jsmn/jsmn.c:37-81 | the loop agrees with the scan, and restores pos on PART and NOMEM |
| Jsmn.Parser.ParseString | lib_jsmn/jsmn.c:86-148 | the loop agrees with the scan, and restores pos on every error |
| Jsmn.Parser.OpenContainer | lib_jsmn/jsmn.c:165-182 | an opening bracket adds a token, counts it at its parent and makes it toksuper |
| Jsmn.Parser.CloseContainer | lib_jsmn/jsmn.c:184-209 | a closing bracket ends the token that the walk finds, in place |
| Jsmn.Parser.Turn | lib_jsmn/jsmn.c:162-268 | one turn of the loop on the array equals one step of the machine |
| Jsmn.Parser.Parse | lib_jsmn/jsmn.c:153-276 | a whole call equals a run of the machine: code, count, tokens, pos and toksuper |
| Jsmn.Parser.CountTokens | lib_jsmn/jsmn.c:153-276 | the call without tokens equals the counting run and stores nothing |
| JsonWrappers.SkipToLast | lib_jsmn/json_wrappers.c:26-38 | ends inside the container's subtree, and on its last token if and only if every container in it has fewer than 256 children; else at least 256 trees are still to come |
| JsonWalk.WalkTurn | lib_jsmn/json_wrappers.c:26-38 | each turn of a walk by sizes passes over one child, as long as all sizes were exact; after the first that was not it stays at least 256 trees behind |
| JsonWalk.WalkLost | lib_jsmn/json_wrappers.c:26-38 | and so never stands before a child again |
| JsonWalk.ExactIfSmall | lib_jsmn/json_wrappers.c:116-178 | if no container in the scope has 256 children, every search in it is exact |
| JsonLookup.FindMeaning | lib_jsmn/json_wrappers.c:116-178 | the search finds the value of the first equal key after string keys, fails at the first key that is not a string, and else finds nothing |
| JsonLookup.NotFoundIff | lib_jsmn/json_wrappers.c:126-177 | of any token: NOT_FOUND if and only if it is an object of an even size that is not zero, and all keys that the size counts are strings other than the one asked for; a size of zero or an odd one gives FAIL |
| JsonLookup.SearchCodes | lib_jsmn/json_wrappers.c:116-178 | when the searches by key and by index fail, and with which code |
| JsonLookup.GetterCodes | lib_jsmn/json_wrappers.c:225-286 | when a string getter or a scope function fails on what was found, and with which code |
| JsonLookup.ReleaseMeaning | lib_jsmn/json_wrappers.c:262-291 | every scope of one value can be released but the first token, and then the code is FAIL |
| JsonSearch.WalkValueIff | lib_jsmn/json_wrappers.c:116-178 | the walk of a search by key, on any accepted text, comes to what the tree says if the sizes it passes over are exact; if not, it comes to no value that is there and to no other child |
| JsonSearch.WalkIndexIff | lib_jsmn/json_wrappers.c:304-331 | the walk of a search by index comes to what the tree says if and only if the sizes it passes over are exact, and else to no child |
| JsonWrappers.SearchKey | lib_jsmn/json_wrappers.c:116-178 | the loop over the flat array, with its KEY, FOUND and SKIP states, is that walk, whatever the sizes; its safety exits are not taken |
| JsonWrappers.SearchIndex | lib_jsmn/json_wrappers.c:304-331 | the same by index |
| JsonWrappers.JObj.Init | lib_jsmn/json_wrappers.c:468-503 | parses, checks the first token, and starts the scope there, with the code for each failure; for a text of separators only the check reads what the array holds |
| JsonWrappers.JObj.GetValue | lib_jsmn/json_wrappers.c:116-178 | what the walk by sizes comes to, whatever they are; it is what the tree says if the sizes passed over are exact, and a value that the tree finds is found if and only if they are |
| JsonWrappers.JObj.GetArrayIndex | lib_jsmn/json_wrappers.c:304-331 | what the walk by sizes comes to; it is what the tree says if and only if the sizes passed over are exact |
| JsonWrappers.JObj.GetScope | lib_jsmn/json_wrappers.c:246-286 | enters the container that the walk comes to, or leaves the scope, with the code of each failure; the right container is entered if and only if the sizes passed over are exact |
| JsonWrappers.JObj.ArrayGetScope | lib_jsmn/json_wrappers.c:400-436 | the same for an element |
| JsonWrappers.JObj.ReleaseScope | lib_jsmn/json_wrappers.c:262-291 | moves the scope to the parent token, or fails at the root |
| JsonWrappers.JObj.GetValStr | lib_jsmn/json_wrappers.c:225-232 | the text of the string that the walk comes to, if it fits with its NUL, or the code of the failure |
| JsonWrappers.JObj.ArrayGetStr | lib_jsmn/json_wrappers.c:378-385 | the same for an element |
| JsonWrappers.JObj.GetValInt | lib_jsmn/json_wrappers.c:57-83 | the number that the walk comes to, as strtoul or strtoull and the conversion to the signed type give it, or an invalid type |
| JsonWrappers.JObj.ArrayGetInt | lib_jsmn/json_wrappers.c:343-350 | the same for an element |
| JsonWrappers.JObj.GetValBool | lib_jsmn/json_wrappers.c:40-54 | true, 1, false or 0 that the walk comes to, or an invalid type |
| JsonNumber.IntMeaning | lib_jsmn/json_wrappers.c:57-83 | in every accepted text a number is read from a primitive if and only if its text is an optional sign and digits; it is that number, saturated and narrowed |
| JsonNumber.NarrowedIff | lib_jsmn/json_wrappers.c:62-64 | the number that is returned is the number in the text if and only if it is in the range of the signed type |
| JsonNumber.NarrowedValue | lib_jsmn/json_wrappers.c:57-83 | a number outside that range comes back modulo the number of values of the type, or as -1 if it is too large for that |
| JsonNumber.ReadBoolMeaning | lib_jsmn/json_wrappers.c:40-54 | true and 1 are read as true, false and 0 as false, and no other text is read |
| JsonNumber.OnlyPrimitives | lib_jsmn/json_wrappers.c:40-83 | numbers and bools are read from primitives only |
| JsonNumber.DecimalReads | lib_jsmn/json_generator.c:299-312 | what the generator prints for a number is read as that number |
| JsonLookup.ScopeMoves | lib_jsmn/json_wrappers.c:246-297 | a successful get moves to a child of the scope, a failed one leaves it alone |
| JsonLookup.ScopeIsStack | lib_jsmn/json_wrappers.c:246-297 | after any gets and releases the scope is the ancestor as many levels up as the releases outnumber the gets |
| JsonLookup.ScopeReturns | lib_jsmn/json_wrappers.c:400-441 | every well-bracketed list of successful gets and releases, objects and arrays mixed, leaves the scope where it was |
| JsonEscape.UnescapeEscape | lib_jsmn/json_escape_str.c:59-100 | unescaping an escaped string gives the string back |
| JsonEscape.EscapedPieces | lib_jsmn/json_escape_str.c:66-93 | backspace, newline, carriage return, tab, quote, backslash and slash become a backslash and their letter, every other character stays as it is, in order |
| JsonEscape.EscapedIsClean | lib_jsmn/json_escape_str.c:59-100 | escaped text holds no character below 0x20, and no quote without a backslash before it |
| JsonEscape.EscapedIsBody | lib_jsmn/json_escape_str.c:59-100 | escaped text is the inside of a string literal |
| JsonEscape.EscapedScans | lib_jsmn/jsmn.c:86-148 | quoted, an escaped string is scanned as one token that covers exactly the escaped text |
| JsonEscape.PrintBuf.MemAppend | lib_jsmn/json_escape_str.c:38-56 | appends, growing the buffer when needed, keeps bpos below size and the old contents |
| JsonEscape.PrintBuf.EscapeStr | lib_jsmn/json_escape_str.c:59-100 | the run-batching loop appends exactly the per-character escape |
| JsonText.FullIsSticky | lib_jsmn/json_generator.c:86-98 | once the buffer is full, every later call is refused and changes nothing |
| JsonText.ApplyGrows | lib_jsmn/json_generator.c:108-341 | written text is never changed, and never outgrows the buffer |
| JsonText.LastCloseCertifies | lib_jsmn/json_generator.c:169-177 | a final close that succeeds proves that no call before it was refused or truncated |
| JsonText.CloseIffFits | lib_jsmn/json_generator.c:169-212 | the final close succeeds if and only if the whole text and its NUL fit |
| JsonText.FailureSeenIff | lib_jsmn/json_generator.c:221-222 | a call that fails returns a negative code if and only if it does not set an array element on a text that was not started |
| JsonText.StartedApplies | lib_jsmn/json_generator.c:75-84 | on a text that begins with a brace no series of calls is refused for its start |
| JsonText.LastCharMeaning | lib_jsmn/json_generator.c:36-41 | the character on which the comma depends is the last one above the space |
| JsonDoc.DocumentStarts | lib_jsmn/json_generator.c:75-84 | so a document's calls never are, if there is room for the first brace |
| JsonGenerator.JsonStr.constructor | lib_jsmn/json_generator.c:100-106 | an empty text in a buffer of NULs |
| JsonGenerator.JsonStr.RevSkip | lib_jsmn/json_generator.c:36-41 | the last character that is not white space |
| JsonGenerator.JsonStr.Bracket | lib_jsmn/json_generator.c:146-212 | the bracket calls write in place what the text model says, on any text on which they stay in the buffer |
| JsonGenerator.JsonStr.Print | lib_jsmn/json_generator.c:214-341 | the printing calls write in place what the text model says, truncation included, or refuse a text that does not begin with a brace |
| JsonGenerator.JsonStr.Call | lib_jsmn/json_generator.c:108-341 | any call: status and text are those of the model on values |
| JsonDoc.MembersWritten | lib_jsmn/json_generator.c:257-341 | the documented calls for an object's members emit the text that the rule for commas gives |
| JsonDoc.ElemsWritten | lib_jsmn/json_generator.c:214-255 | the same for the elements of an array |
| JsonDoc.WrittenIffSeparable | lib_jsmn/json_generator.c:146-203 | the emitted text is the JSON text of the document if and only if its arrays never put an object or array behind an element of another sort |
| JsonDoc.MixedNotSeparated | lib_jsmn/json_generator.c:146-167 | behind a number an object is written without a comma |
| JsonLayout.LayoutSpelled | lib_jsmn/jsmn.c:153-276 | a text laid out as words and brackets with separators spells the tree of the layout |
| JsonRoundTrip.DocSpelled | lib_jsmn/jsmn.c:153-276 | the JSON text of a document spells the document's tree |
| JsonRfc.RfcAccepted | lib_jsmn/jsmn.c:153-276 | every text of RFC 8259 that does not end in a primitive, with white space anywhere, is parsed into the preorder of a tree that stands for its value, with one token for each value and each name; with fewer tokens the code is NOMEM |
| JsonRfc.EndingIsPartial | lib_jsmn/jsmn.c:59-62 | a text that ends in a primitive gives PART |
| JsonOutput.WritesJson | lib_jsmn/json_generator.c:108-341 | a document whose names and array strings are escaped, and whose arrays can be separated, is written as the RFC 8259 text of its own value |
| JsonQuery.KeyAnswers | lib_jsmn/json_wrappers.c:116-178 | on a written object of any size a lookup by key finds the member's value if and only if it is one of the first n % 128 members of n; else the code is FAIL if n is a multiple of 128 and NOT_FOUND if not |
| JsonQuery.IndexAnswers | lib_jsmn/json_wrappers.c:304-331 | on a written array of any size a lookup by index finds the element if and only if it is one of the first n % 256 of n |
| JsonQuery.AskAnswers | lib_jsmn/json_wrappers.c:246-331 | for a path of any length, entering containers on the way: answered by what is stored there if the sizes count every step, and else by an error |
| JsonQuery.SmallDoc | lib_jsmn/jsmn_parser.h:158-169 | the sizes of a document's tokens are exact if and only if its objects have under 128 members and its arrays under 256 elements |
| JsonReach.ExactInDocument | lib_jsmn/json_wrappers.c:116-178 | in a written container of any size a search passes over exact sizes alone if and only if the values before the one asked for, among those that the size counts, are small |
| JsonReach.GetReaches | lib_jsmn/json_wrappers.c:116-178 | the walk of a search comes to a member or an element of a written document if and only if the container's size counts it and everything before it is small; else to no member and no element |
| JsonReach.AskReachesIff | lib_jsmn/json_wrappers.c:246-331 | so with a path of any length: it comes to the token of what is stored there if and only if this holds of every step |
| JsonReach.FoundIff | lib_jsmn/json_wrappers.c:246-331 | from the root of every written document |
| JsonReach.SmallComesBack | lib_jsmn/json_wrappers.c:246-331 | in a small document the walk answers every path by what is stored there, or by an error if nothing is |
| JsonReach.FirstOf128 | lib_jsmn/json_wrappers.c:126-129 | in an object of 128 members (256 and so on) the first is there and nothing is passed over, and the code is FAIL |
| JsonReach.FirstOf256 | lib_jsmn/json_wrappers.c:304-331 | in an array of 256 elements (512 and so on) the first is out of range |
| JsonReach.BehindLongArray | lib_jsmn/json_wrappers.c:26-38 | a member behind an array of 256 elements or more is there and counted, and the search does not come to it |
| JsonQuery.RoundTrip | lib_jsmn/json_generator.c:108-341 | written, parsed and queried, every document comes back: no error, the text, the preorder of its tree, and at every path the stored value if the sizes count it, which they do everywhere in a small document |
| JsonQuery.StringsComeBack | lib_jsmn/json_wrappers.c:101-110 | the string getters return the stored text at the end of a path, or no memory if it does not fit |
| JsonQuery.NumbersComeBack | lib_jsmn/json_wrappers.c:57-83 | the number getters return the stored number at the end of a path if and only if it is in the range of their type |
| JsonQuery.NumbersComeBack64 | lib_jsmn/json_wrappers.c:70-83 | what the int and unsigned setters store comes back from json_get_val_int64 |
| JsonQuery.NumbersComeBack32 | lib_jsmn/json_wrappers.c:56-69 | and from json_get_val_int if and only if it is below 2^31 |
| JsonQuery.BoolsComeBack | lib_jsmn/json_wrappers.c:40-54 | the bool getters return the stored bool |
| CInts.U8IsMod | lib_jsmn/jsmn_parser.h:158-169 | the value in a uint8_t field is the number modulo 256 |
| CInts.Low4IsMod | lib_breeze/core/transport.c:20-25 | the value in a field of four bits is the number modulo 16 |
| BreezeFrame.HeaderRoundTrip | lib_breeze/core/transport.c:130-141 | the header fields read back are those that were written |
| BreezeFrame.HeaderLayout | lib_breeze/core/transport.c:130-137 | which bits of the four bytes hold the version, the flag, the id, the command, the two frame numbers and the length |
| BreezeRx.Receiver.Place | lib_breeze/core/transport.c:326-355 | a frame begins a message, goes on with it, or resets the receiver with the right error |
| BreezeRx.Receiver.Receive | lib_breeze/core/transport.c:313-393 | one packet, in place: the state and outcome of the model on values, and where a complete message goes |
| BreezeRx.DispatchMeaning | lib_breeze/core/transport.c:211-232 | the authentication gets AUTH_REQ and AUTH_CFM only, the extended commands EXT_DOWN only, the application CTRL, QUERY and five OTA commands; anything else is dropped |
| BreezeRx.RefusalMeaning | lib_breeze/core/transport.c:313-373 | which packets are refused, said of their bytes, with the source of the error, and that the message in progress is given up |
| BreezeRx.WellFormedMeaning | lib_breeze/core/transport.c:357-386 | which packets are whole, said of their bytes, and what their payload is |
| BreezeRx.StepHolding | lib_breeze/core/transport.c:313-393 | a packet extends the frames held, completes them or gives them up, exactly as its header and length say; the bound on what is copied never truncates |
| BreezeRx.RunHolding | lib_breeze/core/transport.c:313-393 | over every run, what is held are frames 0.. of one message, the last packets that came |
| BreezeRx.CompleteIffMade | lib_breeze/core/transport.c:313-393 | after any run, a packet completes a message if and only if it is the last of total + 1 consecutive frames numbered 0..total with one id, command and total; the message is their payloads |
| BreezeRx.RunBounds | lib_breeze/core/transport.c:46-55 | an idle receiver holds no bytes; one at work has frame_seq below total and total below 16 |
| BreezeRx.RunMsgId | lib_breeze/core/transport.c:46-55 | over every run rx.msg_id is that of the last packet that began a message, also after the message is complete or given up |
| BreezeRx.CompleteKeepsId | lib_breeze/core/transport.c:382-388 | a message that is complete leaves its id for the reply |
| BreezeTx.Sender.SendPacket | lib_breeze/core/transport.c:184-195 | one packet is built and offered to the link; the counters move only if it is taken |
| BreezeTx.Sender.Fragment | lib_breeze/core/transport.c:172-209 | the loop and the confirmation of notifications are those of the model on values |
| BreezeTx.Sender.Confirm | lib_breeze/core/transport.c:395-418 | transport_txdone: the next fragment, TX_DONE and a reset, or an error |
| BreezeTx.Sender.Accept | lib_breeze/core/transport.c:282-307 | the tx fields of a new message |
| BreezeTx.Sender.Transmit | lib_breeze/core/transport.c:258-311 | transport_tx, its refusals included |
| BreezeSender.SendOneKeeps | lib_breeze/core/transport.c:184-195 | a packet that is taken is the next fragment of the message |
| BreezeSender.TxDoneKeeps | lib_breeze/core/transport.c:395-418 | a confirmation keeps the counters in step, and TX_DONE is raised only for the message accepted last, and only when all its fragments went out and were confirmed |
| BreezeSender.StepKeeps | lib_breeze/core/transport.c:172-209 | every event keeps pkt_cfm <= pkt_req == frame_seq, bytes_sent == min(len, 16 * pkt_req) and the packets in order without gap or overlap |
| BreezeSender.FreshRuns | lib_breeze/core/transport.c:395-418 | so over every run: each TX_DONE is for an accepted message, for none twice and in their order, with as many confirmations as packets; the message in hand has had none |
| BreezeDelivery.NotificationDeliversIff | lib_breeze/core/transport.c:172-209 | an accepted notification is delivered within the call, with one TX_DONE, if and only if it has bytes or the link takes its packet |
| BreezeDelivery.IndicationDeliversIff | lib_breeze/core/transport.c:172-209 | an accepted indication can be delivered by any continuation of the run if and only if the link takes all its packets, and then by confirmations alone |
| BreezeDelivery.IndicationGoneIff | lib_breeze/core/transport.c:196-206 | the sender is idle again with nothing sent if and only if the indication is empty and the link refuses its packet |
| BreezeDelivery.IndicationStuckIff | lib_breeze/core/transport.c:172-209 | the sender is stuck after the call if and only if the indication has bytes and its first packet is refused |
| BreezeDelivery.StuckStays | lib_breeze/core/transport.c:395-418 | a sender that is stuck waits for no confirmation, and only a timeout or a reset frees it |
| BreezeDelivery.StuckRun | lib_breeze/core/transport.c:258-280 | over every run without these it sends nothing, reports nothing and accepts nothing |
| BreezeDelivery.OneByteStuck | lib_breeze/core/transport.c:196-206 | one byte and one refusal: success is returned, nothing is sent, and no continuation delivers it |
| BreezeDelivery.IndicationDelivers | lib_breeze/core/transport.c:258-311 | an indication whose packets the link takes is delivered, from the call on, with one confirmation for each packet |
| BreezeModes.BusyWritesFlag | lib_breeze/core/transport.c:267-280 | a call is refused if and only if a message is in hand, and then changes the encrypted flag alone |
| BreezeModes.RunMode | lib_breeze/core/transport.c:258-311 | at any point of a run the flag, the key and g_dn_complete are what the events alone say |
| BreezeModes.StepAlikeIff | lib_breeze/core/transport.c:172-209 | an event makes the packets of a message differ in how they are sent if and only if it sends a packet that is not the first while these are not as for the first |
| BreezeModes.FreshAlikeIff | lib_breeze/core/transport.c:258-418 | the packets sent for each message are sent in one way at every point of a run if and only if every packet that is not the first of its message is sent while these are as its accepted call has left them |
| BreezeModes.AlikeAtEnd | lib_breeze/core/transport.c:258-311 | and so they are at its end, and in every TX_DONE |
| BreezeModes.RefusedCallFlips | lib_breeze/core/transport.c:267-280 | a run in which a refused call changes how the rest of a message is sent |
| BreezeModes.RefusedCallsFlipBack | lib_breeze/core/transport.c:267-280 | a run in which a second refused call changes it back before the next packet |
| BreezeWire.AcceptedCarries | lib_breeze/core/transport.c:282-296 | after every run an accepted call sends its data under its command; a REPLY and an EXT_UP carry the id of the message received last, a STATUS carries 0, any other what the message before it has left |
| BreezeWire.RunNames | lib_breeze/core/transport.c:130-137 | over every run each packet of the message in hand and of every TX_DONE carries the id and the command of its message and its own number |
| BreezeWire.PacketHeader | lib_breeze/core/transport.c:126-160 | the header and the payload of a packet: flag, length and padding before and after g_dn_complete |
| BreezeWire.NullRefused | lib_breeze/core/transport.c:263-265 | a null pointer with a length is refused, and nothing changes |
| BreezeWire.TxCommandsAre | lib_breeze/core/transport.c:86-102 | the twelve commands of a sender |
| BreezeWire.RunReports | lib_breeze/core/transport.c:395-412 | over every run a TX_DONE is raised for these only |
| BreezeWire.FreshSecretIff | lib_breeze/core/transport.c:267-280 | over every run, while there is a key no packet of a STATUS, REPLY, EXT_UP or of the authentication but AUTH_RAND goes out in clear, if and only if at each later packet of such a message the last call has left the flag set |
| BreezeWire.CallSets | lib_breeze/core/transport.c:267-275 | which it does if and only if there was a key and that call was for such a message |
| BreezeWire.StatusInClear | lib_breeze/core/transport.c:267-280 | a run in which the rest of a status report goes out in clear |
| BreezeTransport.PacketReads | lib_breeze/core/transport.c:130-160 | the receiver gets the chunk out of a packet, without padding, encrypted or not |
| BreezeTransport.FewFrames | lib_breeze/core/transport.c:298-301 | up to 256 bytes there are at most 16 frames, one for each 16 bytes begun |
| BreezeTransport.RoundTrip | lib_breeze/core/transport.c:258-393 | the packets of a message of up to 256 bytes, taken in order by an idle receiver, give back payload, command and id |
| BreezeTransport.EchoDropped | lib_breeze/core/transport.c:211-232 | a message of the sender's own commands that comes back to it is put together and dropped |
| BreezeTransport.CompleteFits | lib_breeze/core/transport.c:313-324 | no message of more than 256 bytes is ever handed over |
| BreezeTransport.DoneMeansReceivable | lib_breeze/core/transport.c:395-412 | in every run that keeps the mode of each message, each TX_DONE stands for packets from which the receiver rebuilds the message |
| Sha256Spec.ZeroCount | lib_breeze/core/sha256_breeze.c:110-122 | the fewest zero bytes that bring the length to 56 modulo 64 |
| Sha256Constants.FirstPrimes | lib_breeze/core/sha256_breeze.c:22-31 | the numbers behind the constants are the first 64 primes |
| Sha256Constants.RoundConstants | lib_breeze/core/sha256_breeze.c:22-31 | K_t holds the first 32 bits of the fractional part of the cube root of the prime with t primes below it |
| Sha256Constants.InitialHash | lib_breeze/core/sha256_breeze.c:79-86 | the initial hash value holds those of the square roots of the first eight primes |
| Sha256WordFacts.ChMeaning | lib_breeze/core/sha256_breeze.c:14 | Ch takes the bits of y where x has its bits, and those of z elsewhere |
| Sha256WordFacts.MajMeaning | lib_breeze/core/sha256_breeze.c:15 | Maj takes the bits on which x and y agree, and those of z elsewhere |
| Sha256WordFacts.RotatesBits | lib_breeze/core/sha256_breeze.c:12 | rotation moves each bit n places down and round the end, for the ten amounts that occur |
| Sha256WordFacts.ReadsBack | lib_breeze/core/sha256_breeze.c:136-147 | the bytes that a word is written as are read back as the word |
| Sha256Example.AllRounds | lib_breeze/core/sha256_breeze.c:52-63 | the working variables of the published example after 64 rounds |
| Sha256Example.DigestOfAbc | lib_breeze/core/sha256_breeze.c:75-148 | the digest of "abc" is the published one |
| Sha256Spec.LengthRoundTrip | lib_breeze/core/sha256_breeze.c:124-133 | the length field, read as a number, is the length |
| Sha256Spec.FoldPrefix | lib_breeze/core/sha256_breeze.c:89-102 | the hash of the whole blocks so far does not depend on what follows |
| Sha256.Ctx.FillSchedule | lib_breeze/core/sha256_breeze.c:38-41 | the two loops fill in the message schedule |
| Sha256.Ctx.RunRounds | lib_breeze/core/sha256_breeze.c:52-63 | the loop runs the 64 rounds |
| Sha256.Ctx.Transform | lib_breeze/core/sha256_breeze.c:34-73 | the state becomes the compression of the state and the block |
| Sha256.Ctx.Update | lib_breeze/core/sha256_breeze.c:89-102 | the bytes are appended to the message; state, buffer and bitlen stay those of the message |
| Sha256.Ctx.PadMessage | lib_breeze/core/sha256_breeze.c:108-122 | both padding paths: what stands before the length in the last block, and the hash before it |
| Sha256.ClosedIsDigest | lib_breeze/core/sha256_breeze.c:104-134 | both paths hash the padding of FIPS 180-4, section 5.1.1 |
| Sha256.Ctx.PutHash | lib_breeze/core/sha256_breeze.c:136-147 | the bytes of the state, the highest of each word first |
| Sha256.Ctx.Final | lib_breeze/core/sha256_breeze.c:104-148 | the digest of all bytes fed |
| Sha256.HashParts | lib_breeze/core/sha256_breeze.c:75-148 | init, updates and final give the SHA-256 digest of the parts joined, however they were split |
| BreezeAuth.RunKeyed | lib_breeze/core/auth.c:136-178 | over every run the key material is secret, comma, random bytes of the connection, and okm the beginning of its hash; the device secret exactly after a tx-done in RAND_SENT |
| BreezeAuth.RandIsSession | lib_breeze/core/auth.c:180-190 | AUTH_RAND sends those random bytes |
| BreezeAuth.RunMarks | lib_breeze/core/auth.c:80-134 | over every run g_dn_complete is set in REQ_RECVD and DONE |
| BreezeAuth.RekeyIdempotent | lib_breeze/core/auth.c:136-163 | updating the key twice is updating it once |
| BreezeAuth.DoneOnlyByHandshake | lib_breeze/core/auth.c:80-134 | DONE only after SVC_ENABLED, RAND_SENT and REQ_RECVD in this order, each entered by its own event, with nothing between |
| BreezeAuth.MatchesIff | lib_breeze/core/auth.c:91-111 | data match a text if and only if one is a beginning of the other |
| BreezeAuth.DoneTexts | lib_breeze/core/auth.c:80-134 | over every run that reaches DONE, "Hi,Server" and "OK" were received in full if and only if the data were that long |
| BreezeAuth.RequestOutcome | lib_breeze/core/auth.c:80-103 | after every run in RAND_SENT: AUTH_REQ with data that agree with "Hi,Server" is answered by AUTH_RSP and leads to REQ_RECVD, or ends the handshake if link or timer fail; any other authentication command fails it and disconnects |
| BreezeAuth.ConfirmationOutcome | lib_breeze/core/auth.c:105-111 | after every run in REQ_RECVD: DONE and authenticated if and only if the command is AUTH_CFM and its data agree with "OK"; else failed and disconnected |
| BreezeAuth.UnexpectedOutcome | lib_breeze/core/auth.c:113-133 | in every other phase an authentication command is answered by an error, and DONE or FAILED is notified again |
| BreezeAuth.SendingOutcome | lib_breeze/core/auth.c:180-216 | what is sent when the service is enabled and when a transmission is done; a message that is not taken leads back to IDLE |
| BreezeAuth.EndingOutcome | lib_breeze/core/auth.c:33-36 | a timeout disconnects, and like a reset or a timer that does not start it leads back to IDLE |
| BreezeAuth.TextsAre | lib_breeze/core/auth.c:91-106 | the texts are "Hi,Server", "Hi,Client" and "OK" |
| BreezeAuth.PeerAuthenticatedIff | lib_breeze/core/auth.c:80-134 | on a link on which nothing fails a peer is authenticated if and only if its data agree with both texts; the whole log of that run |
| BreezeAuth.OneByteAuthenticates | lib_breeze/core/auth.c:80-134 | a run that reaches DONE with the data "H" and "O" |
| BreezeAuthHandler.SessionKey | lib_breeze/core/auth.c:156-162 | with SHA-256 as the hash, the key is the first 16 bytes of the digest |
| BreezeAuthHandler.AuthHandler.UpdateKey | lib_breeze/core/auth.c:136-163 | the buffers are updated in place as the model says |
| BreezeAuthHandler.AuthHandler.OnConnect | lib_breeze/core/auth.c:165-178 | auth_connected, with its failing timer |
| BreezeAuthHandler.AuthHandler.OnService | lib_breeze/core/auth.c:180-190 | auth_service_enabled |
| BreezeAuthHandler.AuthHandler.OnTransmitted | lib_breeze/core/auth.c:192-216 | auth_tx_done |
| BreezeAuthHandler.AuthHandler.OnReceived | lib_breeze/core/auth.c:80-134 | auth_rx_command, its failures included |
| BreezeExtCmd.DecodeEncode | lib_breeze/core/extcmd.c:444-449 | a list of TLVs reads back as it was written |
| BreezeExtCmd.RespondMeaning | lib_breeze/core/extcmd.c:400-454 | a request is answered if and only if it is a list of TLVs of different types that all have a reply, and then by these replies in order |
| BreezeExtCmd.AnsweredIff | lib_breeze/core/extcmd.c:380-465 | a message is sent back if and only if the command is EXT_DOWN and has data; it is EXT_UP if and only if the session is authenticated and the data are TLVs of different types that all have a reply, and else an error without data |
| BreezeExtCmd.NothingUnlessAuthenticated | lib_breeze/core/extcmd.c:394-397 | without authentication what is sent back does not depend on the device's data |
| BreezeExtCmd.ReplyMeaning | lib_breeze/core/extcmd.c:81-313 | what each type is answered with: types 2 and 3 with the product key and the device name unless these are empty, and no request of types 1 to 5 that has data |
| BreezeExtCmd.ProductKeyRequest | lib_breeze/core/extcmd.c:98-118 | the answer to a request for the product key, authenticated and not |
| BreezeExtCmd.RespondFits | lib_breeze/core/extcmd.c:427-436 | an answer takes at most 135 bytes |
| BreezeExtCmd.ExtCmd.AnswerOne | lib_breeze/core/extcmd.c:400-453 | one round of the loop, with its mask of 8 bits |
| BreezeExtCmd.ExtCmd.Answer | lib_breeze/core/extcmd.c:386-454 | the loop puts the answer together; length and tx_buff_avail add up to 255 and the room never runs out |
| BreezeExtCmd.ExtCmd.RxCommand | lib_breeze/core/extcmd.c:380-465 | the answer, or an error unless the session is authenticated and all was answered |
| BreezeExtCmd.ResponseBound | lib_breeze/core/extcmd.c:380-465 | every successful response is a list of TLVs that echoes the request's types in order, of at most 135 bytes |
| HttpDownload.SplitMeaning | lib_http_file_download/http_file_download_thread.c:645-673 | a receive is handed on whole, in packets of 2000 bytes and a last one of 1 to 2000 |
| HttpDownload.OnDataKeeps | lib_http_file_download/http_file_download_thread.c:594-699 | one receive keeps what was handed on a prefix of the file |
| HttpDownload.CountedUnlessRefused | lib_http_file_download/http_file_download_thread.c:645-675 | download_len falls behind what was taken if and only if packets are handed on at all, and the callback takes some of them and refuses another |
| HttpDownload.RefusedSecond | lib_http_file_download/http_file_download_thread.c:645-675 | so with 2001 bytes of which the callback takes the first packet |
| HttpDownload.RequestKeeps | lib_http_file_download/http_file_download_thread.c:394-508 | one request keeps it, and success without chunks means the whole file |
| HttpDownload.RunKeeps | lib_http_file_download/http_file_download_thread.c:377-561 | over every run of disconnects, pauses, stops and retries: the file's bytes from the start, each once and in order, as many as download_len says until a packet is refused, and one result at the end |
| HttpDownloadResult.PassSucceedsIff | lib_http_file_download/http_file_download_thread.c:394-508 | a pass ends with success if and only if a response came whose body was read to the end without an error or a refusal and, if it was not chunked, brought the rest of a file that is not empty |
| HttpDownloadResult.GoesOnIff | lib_http_file_download/http_file_download_thread.c:510-561 | after every run: a turn leads to another try if and only if its pass does not succeed, nobody stops it, a pause is ended by going on, and no more than three tries in a row have brought nothing; and what is reported |
| HttpDownloadResult.RunCounts | lib_http_file_download/http_file_download_thread.c:510-530 | over every run retry_count is that number of tries |
| HttpDownloadResult.EndsIff | lib_http_file_download/http_file_download_thread.c:377-561 | a run that has ended reports success if and only if the pass at which it ended succeeded |
| HttpDownloadResult.OnePassSucceeds | lib_http_file_download/http_file_download_thread.c:474-479 | a file that comes whole in one response and is taken whole is reported as a success at once |
| HttpDownloadResult.OneByteSucceeds | lib_http_file_download/http_file_download_thread.c:474-479 | so with one byte |
| HttpDownloadThread.DownloadContext.HandOn | lib_http_file_download/http_file_download_thread.c:645-673 | the packetising loop |
| HttpDownloadThread.DownloadContext.OnReceivedData | lib_http_file_download/http_file_download_thread.c:594-699 | the data callback, with its refusals |
| HttpDownloadThread.DownloadContext.OneRequest | lib_http_file_download/http_file_download_thread.c:394-508 | from FILE_DOWNLOAD_START to exit |
| HttpDownloadThread.DownloadContext.AfterRequest | lib_http_file_download/http_file_download_thread.c:510-561 | the decision to retry or to report |
| HttpDownloadThread.DownloadContext.RunThread | lib_http_file_download/http_file_download_thread.c:377-561 | the thread, turn by turn |
| HttpDownloadThread.DownloadContext.Download | lib_http_file_download/http_file_download_thread.c:377-561 | against a server that honours Range, a thread that has ended reports success if and only if its last pass succeeded, and then it has handed on the whole file, if it was not chunked |

## Left out

- Jsmn.Parser.Parse: texts of more than 32767 bytes, for which the int16_t offsets of the tokens overflow.
- JsmnErrors.ErrorMeaning: texts that hold a NUL; the parser stops there and reports on the text before it.
- JsonWrappers.JObj.Init: what the array holds after the parse of a text without any token; the code is given in terms of it.
- JsonEscape.PrintBuf.EscapeStr: characters below 0x20 other than \b, \n, \r and \t, which the code prints over the buffer's own fields; and buffer sizes beyond the range of int. Allocation succeeds.
- JsonGenerator.JsonStr.Call: pushes, json_start_array and setters on an empty buffer, which look at characters outside it, and text that holds NULs. A comma and a bracket in the last two bytes leave no room for the NUL; the text is modelled, the missing NUL is not.
- JsonText.Body: floats, and the truncation of integers outside the range of int32 by the int setters.
- JsonQuery.RoundTrip: floats, for which the same layout would hold; keys and array strings must be insides of string literals, because the code prints them as they are.
- BreezeRx.Receiver.Receive: packets that are shorter than a header but not empty; and encrypted packets of more than one block, which the code decrypts into a buffer of one block.
- BreezeTransport.RoundTrip: encrypted messages that are sent before g_dn_complete is set; their packets are built as the code does it (BreezeTx.BuildPacket), but they are not marked as encrypted and their length counts the padding.
- BreezeTx.SendFragment: a link that refuses notifications for ever, for which send_fragment and transport_txdone call each other without end; the link refuses finitely often.
- BreezeTx.Sender.Transmit: the chaining of the cipher from one packet to the next, and a key whose cipher context transport_reset has destroyed.
- BreezeSender.StepKeeps: confirmations that no packet is waiting for; the code answers them with a reset and an error (BreezeTx.TxDone).
- Sha256.Ctx.Update: one call with 2^32 bytes or more, for which the 32-bit index does not end.
- BreezeAuth.RxCommand: what core_handle_err does beyond auth_reset.
- BreezeExtCmd.Reply: the contents of the OS information, of the signature and of a network configuration (type 6 is its 3-byte response); types of 32 and above, for which the shift is undefined, are taken as unsupported.
- HttpDownload.Thread: redirects, servers that ignore Range, a stop before the thread's first report, a user who lets a stopped download go on, and the progress reports, whose product of length and 100 can overflow.
- Float getters (json_get_val_float): mico_strtof on the token's text.
- Sockets, TLS, DNS, timers' real time, flash, advertising and logging: they appear as outcomes only.
