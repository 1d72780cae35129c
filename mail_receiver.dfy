/** The mail receiver: owns the session, store and folder handles, opens them
    lazily, and runs one poll of the retrieval pipeline per `Receive`, closing
    the folder on every way out. */
module Receiver {
  import opened MailTypes
  import opened ContentExtraction
  import opened SelectorFilter
  import opened FlagStrategy
  import opened RetrievalPipeline

  /** The user flag set when the server keeps no `\Recent` but accepts
      keywords, unless another one is configured. */
  const DefaultUserFlag := "spring-integration-mail-adapter"

  function LiveItems(msgs: seq<MimeMessage>): seq<MailItem> {
    seq(|msgs|, i requires 0 <= i < |msgs| => Live(msgs[i]))
  }

  function CopyItems(msgs: seq<MimeMessage>): seq<MailItem> {
    seq(|msgs|, i requires 0 <= i < |msgs| => Copy(msgs[i]))
  }

  function AsReceived(items: seq<MailItem>): seq<Received> {
    seq(|items|, i requires 0 <= i < |items| => Mail(items[i]))
  }

  /** A close appended after calls that open and poll is the only close
      among the calls made since `before`. */
  lemma CloseLast(before: seq<Call>, opening: seq<Call>, polled: seq<Call>, close: Call)
    requires forall c :: c in opening ==> IsConnectionCall(c)
    requires forall c :: c in polled ==> !c.CloseFolder?
    ensures var made := (before + opening + polled + [close])[|before|..];
      && made == opening + polled + [close]
      && forall i :: 0 <= i < |made| - 1 ==> !made[i].CloseFolder?
  {
    var made := (before + opening + polled + [close])[|before|..];
    assert made == opening + polled + [close];
    forall i | 0 <= i < |made| - 1
      ensures !made[i].CloseFolder?
    {
      if i < |opening| {
        assert made[i] in opening;
      } else {
        assert made[i] in polled;
      }
    }
  }

  /** The server side of the receiver's folder: whether it exists, the
      permanent flags it reports, and the flags of its messages. */
  class Mailbox {
    var folderExists: bool
    var permanentFlags: Option<set<Flag>>
    var flags: FlagMap

    constructor (folderExists: bool, permanentFlags: Option<set<Flag>>, flags: FlagMap)
      ensures this.folderExists == folderExists && this.permanentFlags == permanentFlags && this.flags == flags
    {
      this.folderExists := folderExists;
      this.permanentFlags := permanentFlags;
      this.flags := flags;
    }

    /** `Message.setFlags(add, true)` as the server applies it. */
    method SetFlags(id: MsgId, add: set<Flag>)
      modifies this`flags
      ensures flags == AddFlags(old(flags), id, add)
    {
      flags := AddFlags(flags, id, add);
    }

    /** `Folder.close(true)`: the messages marked deleted are removed. */
    method Expunge()
      modifies this`flags
      ensures flags == RetrievalPipeline.Expunge(old(flags))
    {
      flags := RetrievalPipeline.Expunge(flags);
    }
  }

  class MailReceiver {
    const url: Option<UrlName>
    const mailbox: Mailbox

    // configuration
    var protocol: Option<string>
    var maxFetchSize: int
    var shouldDeleteMessages: bool
    var userFlag: string
    var embeddedPartsAsBytes: bool
    var selector: Option<Selector>
    var headerMapper: Option<HeaderMapper>
    var javaMailProperties: map<string, string>
    var hasAuthenticator: bool

    // connection state
    var session: Option<Session>
    var store: Option<Store>
    var folder: Option<Folder>
    var folderOpenMode: OpenMode
    var initialized: bool

    /** The calls this receiver has made into the mail transport, in order. */
    ghost var calls: seq<Call>

    ghost predicate Valid()
      reads this`session, this`store, this`folder, this`initialized, this`folderOpenMode
    {
      && (folder.Some? ==> store.Some? && url.Some? && folder.value.url == url.value)
      && (store.Some? ==> session.Some?)
      && (initialized ==> folderOpenMode == ReadWrite)
    }

    constructor (url: Option<UrlName>, mailbox: Mailbox)
      ensures Valid() && this.url == url && this.mailbox == mailbox
      ensures session.None? && store.None? && folder.None?
      ensures folderOpenMode == ReadOnly && !initialized
      ensures protocol.None? && maxFetchSize == -1 && !shouldDeleteMessages
      ensures userFlag == DefaultUserFlag && embeddedPartsAsBytes
      ensures selector.None? && headerMapper.None? && javaMailProperties == map[] && !hasAuthenticator
      ensures calls == []
    {
      this.url := url;
      this.mailbox := mailbox;
      protocol := None;
      maxFetchSize := -1;
      shouldDeleteMessages := false;
      userFlag := DefaultUserFlag;
      embeddedPartsAsBytes := true;
      selector := None;
      headerMapper := None;
      javaMailProperties := map[];
      hasAuthenticator := false;
      session := None;
      store := None;
      folder := None;
      folderOpenMode := ReadOnly;
      initialized := false;
      calls := [];
    }

    /** The settings a poll depends on, with the flag strategy's decision for
        the folder's permanent flags. */
    function Config(): PollConfig
      reads this`maxFetchSize, this`selector, this`userFlag, this`shouldDeleteMessages, this`headerMapper,
            this`embeddedPartsAsBytes, mailbox`permanentFlags
    {
      PollConfig(maxFetchSize, selector, ChooseMarking(mailbox.permanentFlags, userFlag),
                 shouldDeleteMessages, headerMapper, embeddedPartsAsBytes)
    }

    /** `setProtocol`: refused when it differs from the store URL's protocol. */
    method SetProtocol(p: Option<string>) returns (r: Outcome)
      modifies this`protocol
      ensures r.Pass? <==> url.None? || p == Some(url.value.protocol)
      ensures r.Pass? ==> protocol == p
      ensures r.Fail? ==> r.error == ProtocolMismatch && protocol == old(protocol)
    {
      if url.Some? && p != Some(url.value.protocol) {
        return Fail(ProtocolMismatch);
      }
      protocol := p;
      r := Pass;
    }

    /** `setSession`: a session given directly replaces the one `openSession`
        would create; a missing one is refused. */
    method SetSession(s: Option<Session>) returns (r: Outcome)
      requires Valid()
      modifies this`session
      ensures Valid()
      ensures r.Pass? <==> s.Some?
      ensures r.Pass? ==> session == s
      ensures r.Fail? ==> r.error == NullSession && session == old(session)
    {
      if s.None? {
        return Fail(NullSession);
      }
      session := s;
      r := Pass;
    }

    /** `onInit`: from now on the folder is opened for writing. */
    method OnInit()
      requires Valid()
      modifies this`folderOpenMode, this`initialized
      ensures Valid() && folderOpenMode == ReadWrite && initialized
    {
      folderOpenMode := ReadWrite;
      initialized := true;
    }

    /** `openSession`: a session is created only when there is none. */
    method OpenSession()
      modifies this`session, this`calls
      ensures calls == old(calls) + SessionCalls(old(session))
      ensures old(session).Some? ==> session == old(session)
      ensures old(session).None? ==> session == Some(Session(javaMailProperties, hasAuthenticator))
    {
      if session.None? {
        session := Some(Session(javaMailProperties, hasAuthenticator));
        calls := calls + [NewSession(hasAuthenticator)];
      }
    }

    /** Where a new store comes from: the URL, else the protocol, else the
        session's default. */
    function StoreSourceFor(): StoreSource
      reads this`protocol
    {
      if url.Some? then FromUrl(url.value)
      else if protocol.Some? then FromProtocol(protocol.value)
      else DefaultProtocol
    }

    /** `connectStoreIfNecessary`: a store is created only when there is none,
        and connected only when it is not connected. */
    method ConnectStoreIfNecessary(t: Transport) returns (r: Outcome)
      requires session.Some?
      modifies this`store, this`calls
      ensures store.Some? && store.value.connected == r.Pass?
      ensures old(store).Some? ==> store.value.source == old(store).value.source
      ensures old(store).None? ==> store.value.source == StoreSourceFor()
      ensures old(store).Some? && old(store).value.connected ==> store == old(store)
      ensures r.Pass? <==> (old(store).Some? && old(store).value.connected) || t.connectSucceeds
      ensures r.Fail? ==> r.error == ConnectFailed
      ensures calls == old(calls) + StoreCalls(old(store))
    {
      if store.None? {
        store := Some(Store(StoreSourceFor(), false));
        calls := calls + [GetStore(StoreSourceFor())];
      }
      r := Pass;
      if !store.value.connected {
        calls := calls + [Connect];
        if t.connectSucceeds {
          store := Some(store.value.(connected := true));
        } else {
          r := Fail(ConnectFailed);
        }
      }
    }

    /** `obtainFolderInstance`: `store.getFolder(url)`, a fresh, closed
        handle on the configured URL's folder. `openFolder` asks for it only
        once the store exists; without a store the call would dereference
        nothing, which is `NoStore` here. */
    function ObtainFolderInstance(): (r: Result<Folder>)
      reads this`store
      ensures r.Failure? <==> store.None? || url.None?
      ensures r.Failure? ==> r.error == if store.None? then NoStore else NoUrl
      ensures r.Success? ==> r.value.url == url.value && !r.value.IsOpen()
    {
      if store.None? then Failure(NoStore)
      else if url.None? then Failure(NoUrl)
      else Success(Folder(url.value, None))
    }

    /** The calls `openSession` makes, given the session it starts from. */
    ghost function SessionCalls(s: Option<Session>): seq<Call>
      reads this`hasAuthenticator
    {
      if s.None? then [NewSession(hasAuthenticator)] else []
    }

    /** The calls `connectStoreIfNecessary` makes, given the store it starts
        from. */
    ghost function StoreCalls(st: Option<Store>): seq<Call>
      reads this`protocol
    {
      (if st.None? then [GetStore(StoreSourceFor())] else [])
      + (if st.Some? && st.value.connected then [] else [Connect])
    }

    /** The transport calls `openFolder` makes before it opens the folder,
        given the handles it starts from. */
    ghost function AcquireCalls(s: Option<Session>, st: Option<Store>, f: Option<Folder>, t: Transport): seq<Call>
      reads this`protocol, this`hasAuthenticator
    {
      var connected := (st.Some? && st.value.connected) || t.connectSucceeds;
      (if f.None? then SessionCalls(s) else [])
      + StoreCalls(st)
      + (if f.None? && connected then [GetFolder] else [])
    }

    /** `openFolder` without a folder handle: a session when there is none,
        a connected store, then the folder handle for the URL. */
    method CreateFolder(t: Transport) returns (r: Outcome)
      requires Valid() && folder.None?
      modifies this`session, this`store, this`folder, this`calls
      ensures Valid()
      ensures store.Some? && store.value.connected == ((old(store).Some? && old(store).value.connected) || t.connectSucceeds)
      ensures old(session).Some? ==> session == old(session)
      ensures old(store).Some? ==> store.Some? && store.value.source == old(store).value.source
      ensures old(store).Some? && old(store).value.connected ==> store == old(store)
      ensures folder.Some? ==> !folder.value.IsOpen()
      ensures calls == old(calls) + AcquireCalls(old(session), old(store), None, t)
      ensures old(session).None? ==> session == Some(Session(javaMailProperties, hasAuthenticator))
      ensures old(store).None? ==> store.Some? && store.value.source == StoreSourceFor()
      ensures var connected := (old(store).Some? && old(store).value.connected) || t.connectSucceeds;
        && (r.Pass? <==> connected && url.Some?)
        && folder == (if connected && url.Some? then Some(Folder(url.value, None)) else None)
        && (r.Fail? ==> r.error == (if connected then NoUrl else ConnectFailed))
    {
      r := OpenSessionAndStore(t);
      if r.Pass? {
        var obtained := ObtainFolderInstance();
        calls := calls + [GetFolder];
        if obtained.Success? {
          folder := Some(obtained.value);
        } else {
          return Fail(obtained.error);
        }
      }
    }

    /** The session and then a connected store, each only when missing. */
    method OpenSessionAndStore(t: Transport) returns (r: Outcome)
      requires Valid()
      modifies this`session, this`store, this`calls
      ensures Valid() && session.Some? && store.Some? && store.value.connected == r.Pass?
      ensures old(session).Some? ==> session == old(session)
      ensures old(store).Some? ==> store.value.source == old(store).value.source
      ensures old(store).Some? && old(store).value.connected ==> store == old(store)
      ensures r.Pass? <==> (old(store).Some? && old(store).value.connected) || t.connectSucceeds
      ensures r.Fail? ==> r.error == ConnectFailed
      ensures calls == old(calls) + (SessionCalls(old(session)) + StoreCalls(old(store)))
      ensures old(session).None? ==> session == Some(Session(javaMailProperties, hasAuthenticator))
      ensures old(store).None? ==> store.Some? && store.value.source == StoreSourceFor()
    {
      OpenSession();
      r := ConnectStoreIfNecessary(t);
    }

    /** The first half of `openFolder`: the session, store and folder are each
        created only when missing, and the store is connected only when it is
        not. */
    method AcquireFolder(t: Transport) returns (r: Outcome)
      requires Valid()
      modifies this`session, this`store, this`folder, this`calls
      ensures Valid()
      ensures store.Some? && store.value.connected == ((old(store).Some? && old(store).value.connected) || t.connectSucceeds)
      ensures old(session).Some? ==> session == old(session)
      ensures old(store).Some? ==> store.Some? && store.value.source == old(store).value.source
      ensures old(folder).Some? ==> folder == old(folder)
      ensures old(folder).None? && folder.Some? ==> !folder.value.IsOpen()
      ensures old(store).Some? && old(store).value.connected ==> store == old(store)
      ensures calls == old(calls) + AcquireCalls(old(session), old(store), old(folder), t)
      ensures old(session).None? ==> session == Some(Session(javaMailProperties, hasAuthenticator))
      ensures old(store).None? ==> store.Some? && store.value.source == StoreSourceFor()
      ensures var connected := (old(store).Some? && old(store).value.connected) || t.connectSucceeds;
        && (r.Pass? <==> connected && (old(folder).Some? || url.Some?))
        && (old(folder).None? ==> folder == if connected && url.Some? then Some(Folder(url.value, None)) else None)
        && (r.Pass? ==> folder.Some?)
        && (r.Fail? ==> r.error == (if connected then NoUrl else ConnectFailed))
    {
      if folder.None? {
        r := CreateFolder(t);
      } else {
        r := ConnectStoreIfNecessary(t);
      }
    }

    /** How `openFolder` ends, given the store and folder it starts from:
        the store must connect, a folder handle must be obtained, the folder
        must exist, and a closed folder must open. */
    ghost function OpenOutcome(st: Option<Store>, f: Option<Folder>, t: Transport): Outcome
      reads mailbox`folderExists
    {
      var connected := (st.Some? && st.value.connected) || t.connectSucceeds;
      if !connected then Fail(ConnectFailed)
      else if f.None? && url.None? then Fail(NoUrl)
      else if !mailbox.folderExists then Fail(NoSuchFolder)
      else if (f.Some? && f.value.IsOpen()) || t.openSucceeds then Pass
      else Fail(OpenFailed)
    }

    /** The transport calls `openFolder` makes: those that acquire the folder,
        then the open call when the folder is there and closed. */
    ghost function OpenCalls(s: Option<Session>, st: Option<Store>, f: Option<Folder>, t: Transport): seq<Call>
      reads this`protocol, this`hasAuthenticator, this`folderOpenMode, mailbox`folderExists
    {
      var connected := (st.Some? && st.value.connected) || t.connectSucceeds;
      var found := connected && (f.Some? || url.Some?) && mailbox.folderExists;
      AcquireCalls(s, st, f, t) + (if found && !(f.Some? && f.value.IsOpen()) then [Open(folderOpenMode)] else [])
    }

    /** `openFolder` only sets up the session, the store and the folder. */
    lemma OpenCallsConnectOnly(s: Option<Session>, st: Option<Store>, f: Option<Folder>, t: Transport)
      ensures forall c :: c in OpenCalls(s, st, f, t) ==> IsConnectionCall(c)
    {
    }

    /** Opening is idempotent: with a connected store and an open folder
        that exists, `openFolder` succeeds without a single recorded call
        (it only asks whether the store is connected and whether the folder
        exists and is open). */
    lemma OpenIdempotent(s: Option<Session>, st: Option<Store>, f: Option<Folder>, t: Transport)
      requires st.Some? && st.value.connected && f.Some? && f.value.IsOpen() && mailbox.folderExists
      ensures OpenCalls(s, st, f, t) == [] && OpenOutcome(st, f, t) == Pass
    {
    }

    /** `openFolder`: after `AcquireFolder`, a missing folder is an error, and
        the folder is opened, in the mode `onInit` decided, only when it is
        not open. */
    method OpenFolder(t: Transport) returns (r: Outcome)
      requires Valid()
      modifies this`session, this`store, this`folder, this`calls
      ensures Valid()
      ensures store.Some? && store.value.connected == ((old(store).Some? && old(store).value.connected) || t.connectSucceeds)
      ensures old(session).Some? ==> session == old(session)
      ensures old(store).Some? ==> store.Some? && store.value.source == old(store).value.source
      ensures old(folder).Some? ==> folder.Some? && folder.value.url == old(folder).value.url
      ensures r == OpenOutcome(old(store), old(folder), t)
      ensures calls == old(calls) + OpenCalls(old(session), old(store), old(folder), t)
      ensures old(session).None? ==> session == Some(Session(javaMailProperties, hasAuthenticator))
      ensures old(store).None? ==> store.Some? && store.value.source == StoreSourceFor()
      ensures folder.Some? <==>
        old(folder).Some? || (((old(store).Some? && old(store).value.connected) || t.connectSucceeds) && url.Some?)
      ensures var wasOpen := old(folder).Some? && old(folder).value.IsOpen();
        && (r.Pass? ==> folder.Some? && folder.value.IsOpen())
        && (r.Pass? && wasOpen ==> folder == old(folder))
        && (r.Pass? && !wasOpen ==> folder.value.openMode == Some(folderOpenMode))
        && (r.Fail? ==> (folder.Some? && folder.value.IsOpen()) == wasOpen)
      ensures old(store).Some? && old(store).value.connected && old(folder).Some? ==>
        store == old(store) && folder.value == old(folder).value.(openMode := folder.value.openMode)
    {
      r := AcquireFolder(t);
      if r.Fail? {
        return;
      }
      if folder.None? || !mailbox.folderExists {
        return Fail(NoSuchFolder);
      }
      if folder.value.IsOpen() {
        return Pass;
      }
      calls := calls + [Open(folderOpenMode)];
      if !t.openSucceeds {
        return Fail(OpenFailed);
      }
      folder := Some(folder.value.(openMode := Some(folderOpenMode)));
      r := Pass;
    }

    /** `searchForNewMessages`, answered by the transport. */
    method SearchForNewMessages(t: Transport) returns (found: Option<seq<MimeMessage>>)
      modifies this`calls
      ensures found == t.newMessages && calls == old(calls) + [Search]
    {
      calls := calls + [Search];
      found := t.newMessages;
    }

    /** `fetchMessages`: one batched fetch of the given messages. */
    method FetchMessages(messages: seq<MimeMessage>, t: Transport) returns (r: Outcome)
      modifies this`calls
      ensures calls == old(calls) + [Fetch(|messages|)]
      ensures r == if t.fetchSucceeds then Pass else Fail(FetchFailed)
    {
      calls := calls + [Fetch(|messages|)];
      r := if t.fetchSucceeds then Pass else Fail(FetchFailed);
    }

    /** `filterMessagesThruSelector`: the messages the selector keeps, in
        order; all of them when there is no selector. */
    method FilterMessagesThruSelector(messages: seq<MimeMessage>) returns (r: Result<seq<MimeMessage>>)
      ensures r == Select(messages, selector)
    {
      var filtered: seq<MimeMessage> := [];
      for i := 0 to |messages|
        invariant selector.Some? ==> SelectBy(messages[..i], selector.value) == Success(filtered)
        invariant selector.None? ==> filtered == messages[..i]
      {
        var message := messages[i];
        assert messages[..i + 1] == messages[..i] + [message];
        if selector.Some? {
          var accepted := selector.value(message);
          assert messages[..i + 1][..i] == messages[..i];
          if accepted.None? {
            FailureSticks(messages, selector.value, i + 1);
            return Failure(SelectorFailed(message.id));
          }
          if accepted.value {
            filtered := filtered + [message];
          }
        } else {
          filtered := filtered + [message];
        }
      }
      assert messages[..|messages|] == messages;
      r := Success(filtered);
    }

    /** `setAdditionalFlags`: the hook for protocol-specific flags, which sets
        none here. */
    method SetAdditionalFlags(message: MimeMessage)
      modifies this`calls
      ensures calls == old(calls) + [AdditionalFlags(message.id)]
    {
      calls := calls + [AdditionalFlags(message.id)];
    }

    /** `setMessageFlags`: each message gets the base flag the folder's
        permanent flags call for, then the additional-flags hook. */
    method SetMessageFlags(filtered: array<MailItem>, ghost retained: seq<MimeMessage>)
      requires filtered[..] == LiveItems(retained)
      modifies mailbox`flags, this`calls
      ensures calls == old(calls) + FlagCalls(retained, ChooseMarking(mailbox.permanentFlags, userFlag))
      ensures mailbox.flags == AddToAll(old(mailbox.flags), retained, MarkFlags(ChooseMarking(mailbox.permanentFlags, userFlag)))
    {
      ghost var marking := ChooseMarking(mailbox.permanentFlags, userFlag);
      var recentFlagSupported := false;
      var permanentFlags := mailbox.permanentFlags;
      if permanentFlags.Some? {
        recentFlagSupported := Recent in permanentFlags.value;
      }
      for i := 0 to filtered.Length
        invariant calls == old(calls) + FlagCalls(retained[..i], marking)
        invariant mailbox.flags == AddToAll(old(mailbox.flags), retained[..i], MarkFlags(marking))
      {
        var message := filtered[i].message;
        assert filtered[..][i] == Live(retained[i]);
        assert retained[..i + 1][..i] == retained[..i];
        if !recentFlagSupported {
          if permanentFlags.Some? && UserDefined in permanentFlags.value {
            mailbox.SetFlags(message.id, {Keyword(userFlag)});
            calls := calls + [SetKeyword(message.id, userFlag)];
          } else {
            mailbox.SetFlags(message.id, {Flagged});
            calls := calls + [SetFlagged(message.id)];
          }
        }
        SetAdditionalFlags(message);
      }
      assert retained[..filtered.Length] == retained;
    }

    /** `deleteMessages`: every message is marked deleted. */
    method DeleteMessages(filtered: array<MailItem>, ghost retained: seq<MimeMessage>)
      requires filtered[..] == LiveItems(retained)
      modifies mailbox`flags, this`calls
      ensures calls == old(calls) + DeleteCalls(retained)
      ensures mailbox.flags == AddToAll(old(mailbox.flags), retained, {Deleted})
    {
      for i := 0 to filtered.Length
        invariant calls == old(calls) + DeleteCalls(retained[..i])
        invariant mailbox.flags == AddToAll(old(mailbox.flags), retained[..i], {Deleted})
      {
        assert filtered[..][i] == Live(retained[i]);
        assert retained[..i + 1][..i] == retained[..i];
        mailbox.SetFlags(filtered[i].message.id, {Deleted});
        calls := calls + [SetDeleted(filtered[i].message.id)];
      }
      assert retained[..filtered.Length] == retained;
    }

    /** `postProcessFilteredMessages`: flag, delete when configured, and
        without a header mapper replace each slot by its eager copy; a copy
        that fails ends it with that error, after the flags are written. */
    method PostProcessFilteredMessages(filtered: array<MailItem>, ghost retained: seq<MimeMessage>) returns (r: Outcome)
      requires filtered[..] == LiveItems(retained)
      modifies filtered, mailbox`flags, this`calls
      ensures calls == old(calls) + PostProcessCalls(retained, Config().marking, shouldDeleteMessages)
      ensures mailbox.flags == AfterPostProcess(old(mailbox.flags), retained, Config().marking, shouldDeleteMessages)
      ensures r == if headerMapper.None? && DetachAll(retained).Failure? then Fail(DetachAll(retained).error) else Pass
      ensures r.Pass? ==> filtered[..] == if headerMapper.None? then CopyItems(retained) else LiveItems(retained)
    {
      SetMessageFlags(filtered, retained);
      if shouldDeleteMessages {
        DeleteMessages(filtered, retained);
      }
      r := Pass;
      if headerMapper.None? {
        r := CopyMessages(filtered, retained);
      }
    }

    /** The copy loop of `postProcessFilteredMessages`: each slot is replaced
        by the eager copy of its message, until a copy fails. */
    method CopyMessages(filtered: array<MailItem>, ghost retained: seq<MimeMessage>) returns (r: Outcome)
      requires filtered[..] == LiveItems(retained)
      modifies filtered
      ensures r.Pass? <==> DetachAll(retained).Success?
      ensures r.Fail? ==> r.error == DetachAll(retained).error
      ensures r.Pass? ==> filtered[..] == CopyItems(retained)
    {
      for i := 0 to filtered.Length
        invariant forall j :: 0 <= j < i ==> filtered[j] == Copy(retained[j])
        invariant forall j :: i <= j < filtered.Length ==> filtered[j] == Live(retained[j])
        invariant DetachAll(retained[..i]).Success?
      {
        assert filtered[..][i] == Live(retained[i]);
        assert retained[..i + 1][..i] == retained[..i];
        var message := filtered[i].message;
        if !message.copyable {
          EachOfFailureSticks(retained, Detach, i + 1);
          return Fail(CopyFailed(message.id));
        }
        filtered[i] := Copy(message);
      }
      assert retained[..filtered.Length] == retained;
      r := Pass;
    }

    /** The conversion loop of `receive`: one message per retained message,
        carrying the extracted payload and the mapped headers. */
    method ConvertMessages(msgs: seq<MimeMessage>, mapper: HeaderMapper) returns (r: Result<seq<Received>>)
      ensures r == ConvertAll(msgs, mapper, embeddedPartsAsBytes)
    {
      ghost var convert := ConvertWith(mapper, embeddedPartsAsBytes);
      var converted := new Received[|msgs|];
      var n := 0;
      while n < |msgs|
        invariant 0 <= n <= |msgs|
        invariant ConvertAll(msgs[..n], mapper, embeddedPartsAsBytes) == Success(converted[..n])
      {
        var message := msgs[n];
        ConvertOne(message, mapper, embeddedPartsAsBytes);
        assert msgs[..n + 1][..n] == msgs[..n];
        var headers := mapper(message);
        if headers.None? {
          EachOfFailureSticks(msgs, convert, n + 1);
          return Failure(MappingFailed(message.id));
        }
        var extracted := ExtractContent(message, headers.value, embeddedPartsAsBytes);
        if extracted.Failure? {
          EachOfFailureSticks(msgs, convert, n + 1);
          return Failure(extracted.error);
        }
        converted[n] := Converted(extracted.value.0, extracted.value.1);
        assert converted[..n + 1] == converted[..n] + [Converted(extracted.value.0, extracted.value.1)];
        n := n + 1;
      }
      assert msgs[..n] == msgs;
      assert converted[..n] == converted[..];
      r := Success(converted[..]);
    }

    /** What `receive` does with the fetched messages: select, post-process,
        and return them detached or converted. */
    method ProcessFetched(messages: seq<MimeMessage>) returns (r: Result<seq<Received>>)
      modifies mailbox`flags, this`calls
      ensures var processed := Process(Config(), messages, old(mailbox.flags));
        r == processed.result && calls == old(calls) + processed.calls && mailbox.flags == processed.flags
    {
      var selection := FilterMessagesThruSelector(messages);
      if selection.Failure? {
        return Failure(selection.error);
      }
      var retained := selection.value;
      var filtered := new MailItem[|retained|](i requires 0 <= i < |retained| => Live(retained[i]));
      assert filtered[..] == LiveItems(retained);
      var outcome := PostProcessFilteredMessages(filtered, retained);
      if outcome.Fail? {
        return Failure(outcome.error);
      }
      if headerMapper.Some? {
        r := ConvertMessages(retained, headerMapper.value);
      } else {
        r := Success(AsReceived(filtered[..]));
        DetachAllCharacterised(retained);
        assert r.value == DetachAll(retained).value;
      }
    }

    /** The `try` block of `receive` once the folder is open: search, cap at
        `maxFetchSize`, fetch, then process what was found. */
    method PollOpenFolder(t: Transport) returns (r: Result<seq<Received>>)
      modifies mailbox`flags, this`calls
      ensures var poll := Poll(Config(), t, old(mailbox.flags));
        r == poll.result && calls == old(calls) + poll.calls && mailbox.flags == poll.flags
    {
      var fetched := SearchAndFetch(t);
      if fetched.Failure? {
        return Failure(fetched.error);
      }
      ghost var fetching := calls[|old(calls)|..];
      assert calls == old(calls) + fetching;
      r := ProcessFetched(fetched.value);
      assert calls == old(calls) + fetching + Process(Config(), fetched.value, old(mailbox.flags)).calls;
    }

    /** The start of a poll: search for new messages, keep at most
        `maxFetchSize` of them, and fetch those in one call when there are
        any. */
    method SearchAndFetch(t: Transport) returns (r: Result<seq<MimeMessage>>)
      modifies this`calls
      ensures t.newMessages.None? ==> r == Failure(SearchFailed) && calls == old(calls) + [Search]
      ensures t.newMessages.Some? ==>
        var messages := Truncate(t.newMessages.value, maxFetchSize);
        && calls == old(calls) + ([Search] + FetchCalls(messages))
        && r == if |messages| > 0 && !t.fetchSucceeds then Failure(FetchFailed) else Success(messages)
    {
      var found := SearchForNewMessages(t);
      if found.None? {
        return Failure(SearchFailed);
      }
      var messages := Truncate(found.value, maxFetchSize);
      if |messages| > 0 {
        var fetched := FetchMessages(messages, t);
        if fetched.Fail? {
          return Failure(fetched.error);
        }
      }
      r := Success(messages);
    }

    /** The `try` block of `receive`: open the folder, then one poll. The
        ghost `effect` is what the poll did: `Poll` when the folder opened,
        the opening error and nothing else otherwise. */
    method PollFolder(t: Transport) returns (r: Result<seq<Received>>, ghost opening: seq<Call>,
                                             ghost openOutcome: Outcome, ghost effect: PollEffect)
      requires Valid()
      modifies this`session, this`store, this`folder, this`calls, mailbox`flags
      ensures Valid()
      ensures store.Some? && store.value.connected == ((old(store).Some? && old(store).value.connected) || t.connectSucceeds)
      ensures openOutcome == OpenOutcome(old(store), old(folder), t)
      ensures opening == OpenCalls(old(session), old(store), old(folder), t)
      ensures forall c :: c in opening ==> IsConnectionCall(c)
      ensures old(session).Some? ==> session == old(session)
      ensures old(store).Some? ==> store.Some? && store.value.source == old(store).value.source
      ensures old(folder).Some? ==> folder.Some? && folder.value.url == old(folder).value.url
      ensures old(session).None? ==> session == Some(Session(javaMailProperties, hasAuthenticator))
      ensures old(store).None? ==> store.Some? && store.value.source == StoreSourceFor()
      ensures folder.Some? <==>
        old(folder).Some? || (((old(store).Some? && old(store).value.connected) || t.connectSucceeds) && url.Some?)
      ensures effect == if openOutcome.Pass? then Poll(Config(), t, old(mailbox.flags))
                        else PollEffect(Failure(openOutcome.error), [], old(mailbox.flags))
      ensures r == effect.result && calls == old(calls) + opening + effect.calls && mailbox.flags == effect.flags
      ensures forall c :: c in effect.calls ==> !IsConnectionCall(c) && !c.CloseFolder?
      ensures openOutcome.Pass? ==> folder.Some? && folder.value.IsOpen()
      ensures openOutcome.Fail? ==>
        (folder.Some? && folder.value.IsOpen()) == (old(folder).Some? && old(folder).value.IsOpen())
    {
      var outcome := OpenFolder(t);
      openOutcome := outcome;
      opening := calls[|old(calls)|..];
      assert opening == OpenCalls(old(session), old(store), old(folder), t);
      OpenCallsConnectOnly(old(session), old(store), old(folder), t);
      if outcome.Fail? {
        effect := PollEffect(Failure(outcome.error), [], old(mailbox.flags));
        assert calls == old(calls) + opening + effect.calls;
        return Failure(outcome.error), opening, openOutcome, effect;
      }
      effect := Poll(Config(), t, mailbox.flags);
      PollNeverCloses(Config(), t, mailbox.flags);
      r := PollOpenFolder(t);
    }

    /** `MailTransportUtils.closeFolder`: closes the folder when there is an
        open one, expunging when asked to. */
    method CloseFolder(expunge: bool)
      modifies this`folder, this`calls, mailbox`flags
      ensures calls == old(calls) + [Call.CloseFolder(expunge)]
      ensures folder == if old(folder).Some? then Some(old(folder).value.(openMode := None)) else None
      ensures mailbox.flags ==
        if old(folder).Some? && old(folder).value.IsOpen() && expunge then RetrievalPipeline.Expunge(old(mailbox.flags))
        else old(mailbox.flags)
    {
      calls := calls + [Call.CloseFolder(expunge)];
      if folder.Some? && folder.value.IsOpen() {
        if expunge {
          mailbox.Expunge();
        }
        folder := Some(folder.value.(openMode := None));
      }
    }

    /** `MailTransportUtils.closeService`: disconnects the store when there is
        one. */
    method CloseService()
      modifies this`store, this`calls
      ensures calls == old(calls) + [CloseStore]
      ensures store == if old(store).Some? then Some(old(store).value.(connected := false)) else None
    {
      calls := calls + [CloseStore];
      if store.Some? {
        store := Some(store.value.(connected := false));
      }
    }

    /** `receive`: one poll, after which the folder is closed exactly once,
        expunging exactly when messages are to be deleted, whether the poll
        succeeded or failed. */
    method Receive(t: Transport) returns (r: Result<seq<Received>>, ghost opening: seq<Call>,
                                          ghost openOutcome: Outcome, ghost effect: PollEffect)
      requires Valid()
      modifies this`session, this`store, this`folder, this`calls, mailbox`flags
      ensures Valid()
      ensures store.Some? && store.value.connected == ((old(store).Some? && old(store).value.connected) || t.connectSucceeds)
      ensures openOutcome == OpenOutcome(old(store), old(folder), t)
      ensures opening == OpenCalls(old(session), old(store), old(folder), t)
      ensures forall c :: c in opening ==> IsConnectionCall(c)
      ensures old(session).Some? ==> session == old(session)
      ensures old(store).Some? ==> store.Some? && store.value.source == old(store).value.source
      ensures openOutcome.Pass? ==> folder.Some?
      ensures old(folder).Some? ==> folder.Some? && folder.value.url == old(folder).value.url
      ensures old(session).None? ==> session == Some(Session(javaMailProperties, hasAuthenticator))
      ensures old(store).None? ==> store.Some? && store.value.source == StoreSourceFor()
      ensures folder.Some? <==>
        old(folder).Some? || (((old(store).Some? && old(store).value.connected) || t.connectSucceeds) && url.Some?)
      ensures folder.Some? ==> !folder.value.IsOpen()
      ensures effect == if openOutcome.Pass? then Poll(Config(), t, old(mailbox.flags))
                        else PollEffect(Failure(openOutcome.error), [], old(mailbox.flags))
      ensures r == effect.result
      ensures calls == old(calls) + opening + effect.calls + [Call.CloseFolder(shouldDeleteMessages)]
      ensures var wasOpen := openOutcome.Pass? || (old(folder).Some? && old(folder).value.IsOpen());
        mailbox.flags == if wasOpen && shouldDeleteMessages then RetrievalPipeline.Expunge(effect.flags) else effect.flags
      ensures var made := calls[|old(calls)|..];
        && |made| > 0 && made[|made| - 1] == Call.CloseFolder(shouldDeleteMessages)
        && forall i :: 0 <= i < |made| - 1 ==> !made[i].CloseFolder?
    {
      r, opening, openOutcome, effect := PollFolder(t);
      ghost var cfg := Config();
      CloseFolder(shouldDeleteMessages);
      assert Config() == cfg;
      CloseLast(old(calls), opening, effect.calls, Call.CloseFolder(shouldDeleteMessages));
    }

    /** `destroy`: closes the folder and the store and forgets both; the
        session is kept. */
    method Destroy()
      requires Valid()
      modifies this`folder, this`store, this`initialized, this`calls, mailbox`flags
      ensures Valid()
      ensures folder.None? && store.None? && !initialized && session == old(session)
      ensures calls == old(calls) + [Call.CloseFolder(shouldDeleteMessages), CloseStore]
      ensures mailbox.flags ==
        if old(folder).Some? && old(folder).value.IsOpen() && shouldDeleteMessages
        then RetrievalPipeline.Expunge(old(mailbox.flags)) else old(mailbox.flags)
    {
      CloseFolder(shouldDeleteMessages);
      CloseService();
      folder := None;
      store := None;
      initialized := false;
    }
  }
}
