# Mail receiver model

A Dafny model of the polling mail receiver of Spring Integration's mail
module, `AbstractMailReceiver`. The receiver keeps a JavaMail session,
store and folder, creates each of them lazily, and reconnects the store only
when it is disconnected. On each `receive` it runs a fixed pipeline:

1. open the folder;
2. search for new messages;
3. keep at most `maxFetchSize` of them;
4. fetch them in one batch;
5. filter them through the selector;
6. flag the retained ones as the server's permanent flags allow;
7. mark them deleted when so configured;
8. return them as eager copies, or as converted messages (a payload plus
   mapped headers).

In a `finally`, `receive` closes the folder, expunging exactly when
messages are to be deleted.

The model has six modules:

- `MailTypes`: flags, message handles and their content, the session, store
  and folder handles, errors, and the trace of calls into the transport.
- `ContentExtraction`: `extractContent` and `byteArrayToContent`, as
  functions.
- `SelectorFilter`: the selection as a function, with its
  characterisation.
- `FlagStrategy`: the flag decision, and the calls and server flags of
  flagging and deleting.
- `RetrievalPipeline`: `Poll`, a function giving the result, the
  transport calls and the server's flags of one poll after the folder is
  open, and the lemmas stating what a poll promises.
- `Receiver`: the class `MailReceiver`, whose fields are the receiver's
  configuration and connection state. Its methods follow the Java methods
  step by step and are proved against the functions above.
  `receive`'s try block is `PollFolder` and its `finally` is
  `CloseFolder`. The class `Mailbox` holds the server side of the folder:
  whether it exists, its permanent flags, and the flags of its messages.

The transport's answers for one poll are a `Transport` parameter: whether
connect and open succeed, what the search returns, and whether the fetch
succeeds. The selector and the header mapper are function-valued fields.
The calls the receiver makes into the transport are recorded in a ghost
trace, `calls`. This is what lets the contracts state the following:

- connect happens only when the store is disconnected;
- no call is ever about a rejected message;
- every `receive` ends with exactly one folder close, whose expunge argument
  is `shouldDeleteMessages`.

Three behaviours of the code worth noting:

- `destroy` (AbstractMailReceiver.java:517-525) closes the folder and the
  store and forgets both, but keeps the session and the open mode.
- The close at the end of `receive` (AbstractMailReceiver.java:360-362) only
  closes the folder. It keeps the folder handle and the store connection for
  the next poll.
- Post-processing writes the flags before the eager copies are made, so a
  copy that fails makes `receive` fail after the messages are flagged and
  marked deleted, and the close that follows still expunges them.

## Model

| member | source | states |
|---|---|---|
| ContentExtraction.ByteArrayToContent | spring-integration-mail/src/main/java/org/springframework/integration/mail/AbstractMailReceiver.java:401-404 | the payload is the buffered bytes; only the content type header is written, and it is "application/octet-stream" |
| ContentExtraction.ExtractContent | spring-integration-mail/src/main/java/org/springframework/integration/mail/AbstractMailReceiver.java:366-399 | a failure is one error naming the message; a success writes no header but the content type; a payload passed through as-is is the message's own content |
| ContentExtraction.TextContent | spring-integration-mail/src/main/java/org/springframework/integration/mail/AbstractMailReceiver.java:370-377 | String content passes unchanged; the content type written is the mail's own when it is textual (lower-cased prefix "text"), "text/plain" otherwise, and is textual either way; the mail's own content type header is kept |
| ContentExtraction.BytesContent | spring-integration-mail/src/main/java/org/springframework/integration/mail/AbstractMailReceiver.java:379-392 | streams, and multiparts or parts when embedded parts go as bytes, become their bytes with "application/octet-stream"; this succeeds exactly when reading or writing them out succeeds |
| ContentExtraction.PassThroughContent | spring-integration-mail/src/main/java/org/springframework/integration/mail/AbstractMailReceiver.java:384-394 | multiparts and parts when embedded parts do not go as bytes, and any other object, are returned as-is and no header is written |
| ContentExtraction.ExtractionFailure | spring-integration-mail/src/main/java/org/springframework/integration/mail/AbstractMailReceiver.java:366-399 | extraction fails exactly when the content cannot be read, the mail content type is not a String, or a stream or part cannot be written out |
| SelectorFilter.FailureSticks | spring-integration-mail/src/main/java/org/springframework/integration/mail/AbstractMailReceiver.java:456-476 | once the selector fails on a message, the whole filtering fails with that error |
| SelectorFilter.SelectByCharacterised | spring-integration-mail/src/main/java/org/springframework/integration/mail/AbstractMailReceiver.java:456-476 | filtering succeeds exactly when the selector yields a boolean for every message, and otherwise names the first one where it did not; on success the result is an in-order subsequence of the input holding exactly the accepted messages, each as often as it occurs |
| SelectorFilter.SelectCharacterised | spring-integration-mail/src/main/java/org/springframework/integration/mail/AbstractMailReceiver.java:456-476 | without a selector every message passes; with one, the result is as above |
| FlagStrategy.MarkingDecision | spring-integration-mail/src/main/java/org/springframework/integration/mail/AbstractMailReceiver.java:421-450 | exactly one branch is chosen: nothing when \\Recent is permanent, the user flag when keywords are accepted, \\Flagged otherwise (also when there are no permanent flags), and, for any message, at most one flag is set by one call |
| FlagStrategy.AddToAllLookup | spring-integration-mail/src/main/java/org/springframework/integration/mail/AbstractMailReceiver.java:429-448 | setting a flag on every retained message adds it to exactly those messages and leaves every other one as it was |
| FlagStrategy.FlagCallsAbout | spring-integration-mail/src/main/java/org/springframework/integration/mail/AbstractMailReceiver.java:429-448 | a message retained k times gets its base flag call and its additional-flags call k times; one not retained gets none |
| FlagStrategy.DeleteCallsAbout | spring-integration-mail/src/main/java/org/springframework/integration/mail/AbstractMailReceiver.java:500-504 | deletion sets \\Deleted once per occurrence of a message, and never on a message not given |
| RetrievalPipeline.Truncate | spring-integration-mail/src/main/java/org/springframework/integration/mail/AbstractMailReceiver.java:324-328 | the messages kept are a prefix of those found, `maxFetchSize` long when it is positive and smaller than their number, all of them otherwise |
| RetrievalPipeline.PollFetch | spring-integration-mail/src/main/java/org/springframework/integration/mail/AbstractMailReceiver.java:323-334 | a poll searches first, keeps exactly the first `maxFetchSize` when more are found (otherwise all), and fetches them in one call exactly when there are any |
| RetrievalPipeline.PostProcessCallsPerMessage | spring-integration-mail/src/main/java/org/springframework/integration/mail/AbstractMailReceiver.java:406-419 | post-processing only makes calls about single messages, and sets \\Deleted only when deletion is configured |
| RetrievalPipeline.PollFailsEarly | spring-integration-mail/src/main/java/org/springframework/integration/mail/AbstractMailReceiver.java:323-342 | a poll that fails in the search, the fetch or the selector fails and touches no message |
| RetrievalPipeline.AboutPoll | spring-integration-mail/src/main/java/org/springframework/integration/mail/AbstractMailReceiver.java:406-419 | the calls of a poll about one message are its flag calls and, when deleting, its delete calls, once per occurrence among the retained messages |
| RetrievalPipeline.PollMarksRetained | spring-integration-mail/src/main/java/org/springframework/integration/mail/AbstractMailReceiver.java:421-450 | a message retained once gets exactly the base flag the strategy chooses, one additional-flags call, and \\Deleted exactly when deletion is configured; its server flags grow by exactly those |
| RetrievalPipeline.PollFlagsRetained | spring-integration-mail/src/main/java/org/springframework/integration/mail/AbstractMailReceiver.java:421-450 | every retained message, however often retained, has its server flags grown by exactly the chosen flag and, when deleting, \\Deleted |
| RetrievalPipeline.PollLeavesOthersUntouched | spring-integration-mail/src/main/java/org/springframework/integration/mail/AbstractMailReceiver.java:340-342 | a message not retained (not found, beyond the bound, or rejected) gets no call and its server flags stay as they were |
| RetrievalPipeline.RejectedNotRetained | spring-integration-mail/src/main/java/org/springframework/integration/mail/AbstractMailReceiver.java:456-476 | a message the selector rejects is not among the retained ones |
| RetrievalPipeline.PollNeverCloses | spring-integration-mail/src/main/java/org/springframework/integration/mail/AbstractMailReceiver.java:318-357 | the try block after `openFolder` neither connects, opens nor closes anything |
| RetrievalPipeline.PollThenExpunge | spring-integration-mail/src/main/java/org/springframework/integration/mail/AbstractMailReceiver.java:360-362 | with deletion, the close after a poll removes every retained message, and any other message exactly when it was already marked deleted |
| RetrievalPipeline.PollWithoutDeletion | spring-integration-mail/src/main/java/org/springframework/integration/mail/AbstractMailReceiver.java:409-411 | without deletion, a poll sets \\Deleted on nothing |
| RetrievalPipeline.ConvertAllCharacterised | spring-integration-mail/src/main/java/org/springframework/integration/mail/AbstractMailReceiver.java:344-354 | conversion succeeds exactly when every retained message's headers can be mapped and its content extracted; it then holds one converted message per retained message, in order; otherwise it names the first message that failed |
| RetrievalPipeline.EachOfCharacterised | spring-integration-mail/src/main/java/org/springframework/integration/mail/AbstractMailReceiver.java:344-354 | converting or copying every message in order succeeds exactly when it succeeds on each, giving one result per message in order; otherwise it fails with the error of the first message it fails on |
| RetrievalPipeline.EachOfFailureSticks | spring-integration-mail/src/main/java/org/springframework/integration/mail/AbstractMailReceiver.java:347-352 | once a message fails, the whole conversion or copy fails with that error |
| RetrievalPipeline.ConvertOne | spring-integration-mail/src/main/java/org/springframework/integration/mail/AbstractMailReceiver.java:348-351 | converting one message fails exactly when the header mapper or the extraction fails, naming the message; otherwise it carries the extracted payload and headers |
| RetrievalPipeline.DetachAllCharacterised | spring-integration-mail/src/main/java/org/springframework/integration/mail/AbstractMailReceiver.java:412-418 | copying succeeds exactly when every retained message can be copied, giving the copy of each in order; otherwise it names the first message whose copy failed |
| RetrievalPipeline.CopiesKeepDateAndLines | spring-integration-mail/src/main/java/org/springframework/integration/mail/AbstractMailReceiver.java:572-585 | each copy answers the received date and the line count of the message it was made from |
| RetrievalPipeline.PollOutput | spring-integration-mail/src/main/java/org/springframework/integration/mail/AbstractMailReceiver.java:344-357 | a successful poll returns one element per retained message, in order: its eager copy without a header mapper, its converted message with one |
| Receiver.Mailbox.SetFlags | spring-integration-mail/src/main/java/org/springframework/integration/mail/AbstractMailReceiver.java:436-446 | setting flags on a message adds them to that message's server flags only |
| Receiver.Mailbox.Expunge | spring-integration-mail/src/main/java/org/springframework/integration/mail/AbstractMailReceiver.java:360-362 | expunging removes exactly the messages marked deleted |
| Receiver.MailReceiver.constructor | spring-integration-mail/src/main/java/org/springframework/integration/mail/AbstractMailReceiver.java:73-105 | a new receiver has no session, store or folder, is read-only and not initialized, fetches without bound, does not delete, has empty JavaMail properties and no authenticator, and uses the default user flag and embedded parts as bytes |
| Receiver.MailReceiver.SetProtocol | spring-integration-mail/src/main/java/org/springframework/integration/mail/AbstractMailReceiver.java:129-135 | the protocol is refused, and left unchanged, exactly when there is a store URL with a different protocol; otherwise it is set |
| Receiver.MailReceiver.SetSession | spring-integration-mail/src/main/java/org/springframework/integration/mail/AbstractMailReceiver.java:146-149 | a missing session is refused and the session left as it was; otherwise it becomes the session |
| Receiver.MailReceiver.OnInit | spring-integration-mail/src/main/java/org/springframework/integration/mail/AbstractMailReceiver.java:528-533 | afterwards the folder open mode is read-write and the receiver is initialized |
| Receiver.MailReceiver.OpenSession | spring-integration-mail/src/main/java/org/springframework/integration/mail/AbstractMailReceiver.java:259-268 | a session is created, with the properties and the authenticator if any, only when there is none; an existing one is kept |
| Receiver.MailReceiver.ConnectStoreIfNecessary | spring-integration-mail/src/main/java/org/springframework/integration/mail/AbstractMailReceiver.java:270-288 | a store is created only when there is none, from the URL, else the protocol, else the default; connect is called only when the store is not connected; the store ends connected exactly when this succeeds |
| Receiver.MailReceiver.ObtainFolderInstance | spring-integration-mail/src/main/java/org/springframework/integration/mail/AbstractMailReceiver.java:311-313 | the folder handle is the configured URL's, closed; it fails without a store or without a URL |
| Receiver.MailReceiver.OpenSessionAndStore | spring-integration-mail/src/main/java/org/springframework/integration/mail/AbstractMailReceiver.java:291-293 | a session is created only when there is none, with the receiver's properties and authenticator, and a store only when there is none, from the URL, else the protocol, else the default; the store ends connected exactly when it was connected or connect succeeds; connect is the only failure |
| Receiver.MailReceiver.CreateFolder | spring-integration-mail/src/main/java/org/springframework/integration/mail/AbstractMailReceiver.java:291-295 | without a folder handle: the exact session, store and folder calls; success exactly when the store connects and there is a URL, leaving a closed handle on the URL; otherwise the connect or missing-URL error and no handle; a missing session and store are created as `OpenSessionAndStore` says; the store is left present, and connected exactly when it was connected or connect succeeds |
| Receiver.MailReceiver.AcquireFolder | spring-integration-mail/src/main/java/org/springframework/integration/mail/AbstractMailReceiver.java:290-297 | session, store and folder are created only when missing and an existing folder handle is kept; without one, a closed handle on the URL exactly when the store connects and there is a URL, and none otherwise; the store is connected only when it is not; the store is left present, and connected exactly when it was connected or connect succeeds |
| Receiver.MailReceiver.OpenCallsConnectOnly | spring-integration-mail/src/main/java/org/springframework/integration/mail/AbstractMailReceiver.java:290-309 | `openFolder` makes only session, store, folder and open calls |
| Receiver.MailReceiver.OpenIdempotent | spring-integration-mail/src/main/java/org/springframework/integration/mail/AbstractMailReceiver.java:299-304 | with a connected store and an open folder that exists, `openFolder` succeeds and makes no call |
| Receiver.MailReceiver.OpenFolder | spring-integration-mail/src/main/java/org/springframework/integration/mail/AbstractMailReceiver.java:290-309 | the exact calls made; success exactly when the store connects, the folder exists, and it is open or opens; the error of each failure; an open folder is not reopened; otherwise it is opened in the mode `onInit` recorded; a handle exists afterwards exactly when one existed or the store connected and there is a URL, so a missing folder or a failed open keeps the handle just obtained; a missing session and store are created as `OpenSessionAndStore` says; the store is left present, and connected exactly when it was connected or connect succeeds |
| Receiver.MailReceiver.SearchForNewMessages | spring-integration-mail/src/main/java/org/springframework/integration/mail/AbstractMailReceiver.java:323 | the messages the search returns, with one search call |
| Receiver.MailReceiver.FetchMessages | spring-integration-mail/src/main/java/org/springframework/integration/mail/AbstractMailReceiver.java:486-492 | one batched fetch of all the messages |
| Receiver.MailReceiver.SearchAndFetch | spring-integration-mail/src/main/java/org/springframework/integration/mail/AbstractMailReceiver.java:323-334 | a failed search makes one call and fails; otherwise the first `maxFetchSize` found (all when not positive or not exceeded) are fetched in one call when there are any, and a failed fetch fails the poll |
| Receiver.MailReceiver.FilterMessagesThruSelector | spring-integration-mail/src/main/java/org/springframework/integration/mail/AbstractMailReceiver.java:456-476 | the result is the selection `Select` characterises |
| Receiver.MailReceiver.SetAdditionalFlags | spring-integration-mail/src/main/java/org/springframework/integration/mail/AbstractMailReceiver.java:513-514 | the hook is called once for the message and sets nothing |
| Receiver.MailReceiver.SetMessageFlags | spring-integration-mail/src/main/java/org/springframework/integration/mail/AbstractMailReceiver.java:421-450 | the calls and the server flags are those of the flag strategy applied to every message in order |
| Receiver.MailReceiver.DeleteMessages | spring-integration-mail/src/main/java/org/springframework/integration/mail/AbstractMailReceiver.java:500-504 | every message is marked deleted, in order, and nothing else changes |
| Receiver.MailReceiver.PostProcessFilteredMessages | spring-integration-mail/src/main/java/org/springframework/integration/mail/AbstractMailReceiver.java:406-419 | flags, then deletes when configured, then, without a header mapper, replaces each slot by the eager copy of its message; a failing copy fails it after the flags are written |
| Receiver.MailReceiver.CopyMessages | spring-integration-mail/src/main/java/org/springframework/integration/mail/AbstractMailReceiver.java:412-418 | every slot of the filtered array is replaced, in place and in order, by the eager copy of its message; this fails exactly when some copy fails, naming the first such message |
| Receiver.MailReceiver.ConvertMessages | spring-integration-mail/src/main/java/org/springframework/integration/mail/AbstractMailReceiver.java:344-354 | the result is the conversion `ConvertAll` characterises, failing on the first message whose headers cannot be mapped or whose content cannot be extracted |
| Receiver.MailReceiver.ProcessFetched | spring-integration-mail/src/main/java/org/springframework/integration/mail/AbstractMailReceiver.java:340-357 | the result, calls and server flags are those of `Process`: a failing selector changes nothing; otherwise those of post-processing and conversion |
| Receiver.MailReceiver.PollOpenFolder | spring-integration-mail/src/main/java/org/springframework/integration/mail/AbstractMailReceiver.java:323-357 | the result, calls and server flags are those of `Poll` |
| Receiver.MailReceiver.PollFolder | spring-integration-mail/src/main/java/org/springframework/integration/mail/AbstractMailReceiver.java:318-357 | the opening calls and outcome are those of `openFolder`, and only connection calls; a failed open returns its error and touches no message; otherwise the result, calls and flags of `Poll`, with the folder open; the handle and the created session and store are as `OpenFolder` says; the store is left present, and connected exactly when it was connected or connect succeeds |
| Receiver.MailReceiver.CloseFolder | spring-integration-mail/src/main/java/org/springframework/integration/mail/AbstractMailReceiver.java:360-362 | one close call; an open folder is closed and, when expunging, its deleted messages are removed; the handle is kept |
| Receiver.MailReceiver.CloseService | spring-integration-mail/src/main/java/org/springframework/integration/mail/AbstractMailReceiver.java:519-520 | one close call; a store is disconnected and kept |
| Receiver.MailReceiver.Receive | spring-integration-mail/src/main/java/org/springframework/integration/mail/AbstractMailReceiver.java:316-363 | the calls are those of `openFolder`, then of `Poll` when it opened, then exactly one folder close whose expunge argument is `shouldDeleteMessages`, on every path; the folder is left closed; a handle exists afterwards exactly when one existed (kept on the same URL) or the store connected and there is a URL; a missing session and store are created as `OpenSessionAndStore` says; the store is left present, and connected exactly when it was connected or connect succeeds; the result and server flags are those of the poll followed by that close |
| Receiver.MailReceiver.Destroy | spring-integration-mail/src/main/java/org/springframework/integration/mail/AbstractMailReceiver.java:517-525 | closes the folder (expunging when deleting) and the store, then forgets both and clears `initialized`; the session is kept |

## Left out

- The JavaMail transport: its answers are a `Transport` value per poll. Provider lookup, authentication, the wire protocols and network failures other than the ones modelled are not part of this model.
- OnInit: the evaluation context `onInit` creates for the selector is not modelled, so the selector behaves the same before and after initialisation; before `onInit` the code evaluates it without a context.
- `synchronized (folderMonitor)`: the receiver is modelled sequentially.
- SpEL: the selector expression and its evaluation context are a function from a message to an optional boolean.
- `searchForNewMessages` is abstract in this class: its answer is `Transport.newMessages`.
- `setAdditionalFlags` is modelled as the base-class hook, which sets nothing. Subclass overrides are not part of this model.
- The header mapper is a function from a message to headers, None when mapping fails. The message builder is a record of payload and headers.
- The bytes of `Multipart.writeTo`, `Part.writeTo` and `FileCopyUtils.copy` are given by the content value.
- `MailTransportUtils` is not part of this model. `closeFolder` is taken to close only a present, open folder and to swallow errors. `closeService` is taken to disconnect only a present store.
- `MailHeaders` and `MessageHeaders` are not part of this model. Their content type header names are taken to be "mail_contentType" and "contentType".
- `IntegrationMimeMessage`: a copy is modelled as `MailItem.Copy` holding its source, and whether copying succeeds as `MimeMessage.copyable`. JavaMail's content copying and the `getFolder` override are not modelled; the `getReceivedDate` and `getLineCount` overrides are `MailItem.ReceivedDate` and `MailItem.LineCount`.
- `toLowerCase` is modelled for ASCII letters only.
- `store.getFolder(null)` is modelled as the error `NoUrl`. JavaMail's own behaviour there is not modelled.
- Failures of flag writes (`setFlags`, `setFlag`) are not modelled. The server accepts every flag, and `Expunge` removes the deleted messages, whatever the folder's open mode, although a folder opened read-only (before `onInit`) would neither store the flags nor expunge.
- The other setters and getters (`setSelectorExpression`, `setJavaMailProperties`, `setJavaMailAuthenticator`, `setMaxFetchSize`, `setShouldDeleteMessages`, `setUserFlag`, `setHeaderMapper`, `setEmbeddedPartsAsBytes`, `getFolder`, `getStore`) are plain field access and are not modelled as members. `toString` and logging are not modelled.
- The three constructors are modelled as one that takes the URL or none. The null check of the `URLName` constructor and the parsing of a URL string are not modelled.
