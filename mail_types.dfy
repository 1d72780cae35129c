/** Values exchanged between the mail receiver and the mail transport:
    flags, message handles and their content, the session/store/folder
    handles, the errors a poll can end with, and the record of transport
    calls the receiver makes. */
module MailTypes {

  type MsgId = nat
  type Byte = bv8

  /** A message flag. `UserDefined` is the `\*` marker a folder lists among
      its permanent flags when it accepts arbitrary keywords (section 7.1 of
      RFC 3501); `Keyword` is one such keyword. */
  datatype Flag =
    | Answered | Deleted | Draft | Flagged | Recent | Seen
    | UserDefined
    | Keyword(name: string)

  datatype OpenMode = ReadOnly | ReadWrite

  /** The exceptions a receiver operation can end with. */
  datatype Error =
    | ProtocolMismatch         // setProtocol: protocol differs from the store URL's
    | NoUrl                    // the store is asked for the folder of a missing URL
    | NoStore                  // obtainFolderInstance without a store
    | NoSuchFolder             // openFolder: the folder does not exist
    | ConnectFailed            // Store.connect
    | OpenFailed               // Folder.open
    | SearchFailed             // searchForNewMessages
    | FetchFailed              // Folder.fetch
    | SelectorFailed(id: MsgId)    // the selector did not yield a boolean
    | ExtractionFailed(id: MsgId)  // extractContent, naming the message
    | MappingFailed(id: MsgId)     // the header mapper, on this message
    | CopyFailed(id: MsgId)        // the eager copy of this message
    | NullSession                  // setSession without a session

  datatype Result<+T> = Success(value: T) | Failure(error: Error)

  datatype Outcome = Pass | Fail(error: Error)

  /** A `Multipart` or a nested `Part`; `wire` is what its `writeTo` would
      produce, or None when writing it out fails. */
  datatype Part = Part(tag: nat, wire: Option<seq<Byte>>)

  datatype Option<+T> = None | Some(value: T)

  /** What `Message.getContent` yields. */
  datatype Content =
    | Text(text: string)                 // a String
    | Stream(data: Option<seq<Byte>>)    // an InputStream; None when reading it fails
    | Multipart(part: Part)
    | NestedPart(part: Part)             // a Part, e.g. an attached message
    | Other(tag: nat)                    // any other object
    | Unavailable                        // getContent throws

  /** A message handle as the folder returns it; `copyable` says whether
      copying it into a detached message (which reads the whole message)
      succeeds. */
  datatype MimeMessage = MimeMessage(id: MsgId, content: Content, receivedDate: Option<int>, lineCount: int, copyable: bool)

  /** A slot of the filtered message array: the live handle, or the eager
      copy that replaces it when no header mapper is configured. The copy
      keeps a reference to its source, to which it delegates the received
      date and the line count. */
  datatype MailItem = Live(message: MimeMessage) | Copy(message: MimeMessage) {
    /** `getReceivedDate`: the handle's own, or for a copy its source's. */
    function ReceivedDate(): Option<int> {
      message.receivedDate
    }

    /** `getLineCount`: the handle's own, or for a copy its source's. */
    function LineCount(): int {
      message.lineCount
    }
  }

  /** A header value: a String, or some other object. */
  datatype HeaderValue = Str(s: string) | NonString(tag: nat)

  type Headers = map<string, HeaderValue>

  /** The payload of a converted message: the content object as it was, or
      a byte array. */
  datatype Payload = AsIs(content: Content) | Bytes(data: seq<Byte>)

  /** One element of the array `receive` returns. */
  datatype Received = Mail(item: MailItem) | Converted(payload: Payload, headers: Headers)

  datatype UrlName = UrlName(protocol: string, file: string)

  datatype Session = Session(properties: map<string, string>, withAuthenticator: bool)

  /** Which `Session.getStore` overload created a store. */
  datatype StoreSource = FromUrl(url: UrlName) | FromProtocol(protocol: string) | DefaultProtocol

  datatype Store = Store(source: StoreSource, connected: bool)

  /** A folder handle; `openMode` is None while it is closed. */
  datatype Folder = Folder(url: UrlName, openMode: Option<OpenMode>) {
    predicate IsOpen() { openMode.Some? }
  }

  /** The answers the transport gives during one poll: whether
      `Store.connect` and `Folder.open` succeed, what the search finds
      (None: it throws), and whether the batched fetch succeeds. */
  datatype Transport = Transport(
    connectSucceeds: bool,
    openSucceeds: bool,
    newMessages: Option<seq<MimeMessage>>,
    fetchSucceeds: bool)

  /** A call the receiver makes into the mail transport that creates a
      handle, changes the state of the store, the folder or a message, or
      runs a hook. Queries (`isConnected`, `exists`, `isOpen`,
      `getPermanentFlags`) are not recorded. `CloseFolder` and `CloseStore`
      are the close helpers, which do nothing on a missing or already closed
      handle. */
  datatype Call =
    | NewSession(withAuthenticator: bool)
    | GetStore(source: StoreSource)
    | Connect
    | GetFolder
    | Open(mode: OpenMode)
    | Search
    | Fetch(count: nat)
    | SetKeyword(id: MsgId, name: string)
    | SetFlagged(id: MsgId)
    | AdditionalFlags(id: MsgId)
    | SetDeleted(id: MsgId)
    | CloseFolder(expunge: bool)
    | CloseStore

  /** Calls that only set up the session, the store or the folder. */
  predicate IsConnectionCall(c: Call) {
    c.NewSession? || c.GetStore? || c.Connect? || c.GetFolder? || c.Open?
  }

  /** The message a per-message call is about. */
  function Target(c: Call): Option<MsgId> {
    match c
    case SetKeyword(id, _) => Some(id)
    case SetFlagged(id) => Some(id)
    case AdditionalFlags(id) => Some(id)
    case SetDeleted(id) => Some(id)
    case _ => None
  }
}
