/** The retrieval pipeline of one poll, after the folder is open: search,
    bound, fetch, filter, flag, delete, and detach or convert. `Poll` is the
    specification the receiver's polling method is proved against; the
    lemmas below state what the pipeline promises. */
module RetrievalPipeline {
  import opened MailTypes
  import opened ContentExtraction
  import opened SelectorFilter
  import opened FlagStrategy

  /** A header mapper: the headers it derives from a message, or None when
      mapping them fails. */
  type HeaderMapper = MimeMessage -> Option<Headers>

  /** The bound on one poll: with a positive `maxFetchSize`, only that many of
      the found messages, the first ones. */
  function Truncate(found: seq<MimeMessage>, maxFetchSize: int): (r: seq<MimeMessage>)
    ensures r <= found
    ensures |r| == if 0 < maxFetchSize < |found| then maxFetchSize else |found|
  {
    if maxFetchSize > 0 && |found| > maxFetchSize then found[..maxFetchSize] else found
  }

  /** The batched fetch: one call, and only when there is something to fetch. */
  function FetchCalls(msgs: seq<MimeMessage>): seq<Call> {
    if |msgs| > 0 then [Fetch(|msgs|)] else []
  }

  /** The calls `postProcessFilteredMessages` makes. */
  function PostProcessCalls(retained: seq<MimeMessage>, marking: Marking, deleteMessages: bool): seq<Call> {
    FlagCalls(retained, marking) + (if deleteMessages then DeleteCalls(retained) else [])
  }

  /** The server's flags after `postProcessFilteredMessages`. */
  function AfterPostProcess(flags: FlagMap, retained: seq<MimeMessage>, marking: Marking, deleteMessages: bool): FlagMap {
    var marked := AddToAll(flags, retained, MarkFlags(marking));
    if deleteMessages then AddToAll(marked, retained, {Deleted}) else marked
  }

  /** `f` applied to every message in order; the first failure ends it. */
  function EachOf(msgs: seq<MimeMessage>, f: MimeMessage -> Result<Received>): Result<seq<Received>> {
    if msgs == [] then Success([])
    else
      match EachOf(msgs[..|msgs| - 1], f)
      case Failure(e) => Failure(e)
      case Success(done) =>
        match f(msgs[|msgs| - 1])
        case Failure(e) => Failure(e)
        case Success(x) => Success(done + [x])
  }

  /** The eager copy of one retained message. */
  function Detach(m: MimeMessage): Result<Received> {
    if m.copyable then Success(Mail(Copy(m))) else Failure(CopyFailed(m.id))
  }

  /** Without a header mapper, each retained message is replaced by its copy. */
  function DetachAll(retained: seq<MimeMessage>): Result<seq<Received>> {
    EachOf(retained, Detach)
  }

  /** One converted message: the mapped headers, then the extracted content
      with its content type written into them. */
  function Convert(m: MimeMessage, mapper: HeaderMapper, embeddedPartsAsBytes: bool): Result<Received> {
    match mapper(m)
    case None => Failure(MappingFailed(m.id))
    case Some(headers) =>
      match ExtractContent(m, headers, embeddedPartsAsBytes)
      case Failure(e) => Failure(e)
      case Success(extracted) => Success(Converted(extracted.0, extracted.1))
  }

  function ConvertWith(mapper: HeaderMapper, embeddedPartsAsBytes: bool): MimeMessage -> Result<Received> {
    m => Convert(m, mapper, embeddedPartsAsBytes)
  }

  /** With a header mapper, each retained message becomes one converted
      message; the first failure fails the whole conversion. */
  function ConvertAll(msgs: seq<MimeMessage>, mapper: HeaderMapper, embeddedPartsAsBytes: bool): Result<seq<Received>> {
    EachOf(msgs, ConvertWith(mapper, embeddedPartsAsBytes))
  }

  function Output(retained: seq<MimeMessage>, headerMapper: Option<HeaderMapper>, embeddedPartsAsBytes: bool): Result<seq<Received>> {
    match headerMapper
    case None => DetachAll(retained)
    case Some(mapper) => ConvertAll(retained, mapper, embeddedPartsAsBytes)
  }

  /** Closing a folder with expunge removes the messages marked deleted. */
  function Expunge(flags: FlagMap): FlagMap {
    map id | id in flags && Deleted !in flags[id] :: flags[id]
  }

  /** The receiver's settings a poll depends on; `marking` is the flag
      strategy's decision for the folder. */
  datatype PollConfig = PollConfig(
    maxFetchSize: int,
    selector: Option<Selector>,
    marking: Marking,
    deleteMessages: bool,
    headerMapper: Option<HeaderMapper>,
    embeddedPartsAsBytes: bool)

  /** What a poll does: its result, the calls it makes after opening the
      folder, and the server's flags when it is done. */
  datatype PollEffect = PollEffect(result: Result<seq<Received>>, calls: seq<Call>, flags: FlagMap)

  /** The body of `receive` after `openFolder` succeeded, up to (not
      including) the closing of the folder. */
  function Poll(cfg: PollConfig, t: Transport, flags: FlagMap): PollEffect {
    match t.newMessages
    case None => PollEffect(Failure(SearchFailed), [Search], flags)
    case Some(found) =>
      var msgs := Truncate(found, cfg.maxFetchSize);
      if |msgs| > 0 && !t.fetchSucceeds then
        PollEffect(Failure(FetchFailed), [Search, Fetch(|msgs|)], flags)
      else
        var processed := Process(cfg, msgs, flags);
        PollEffect(processed.result, [Search] + FetchCalls(msgs) + processed.calls, processed.flags)
  }

  /** The part of a poll after the fetch: filter, then flag, delete and
      detach or convert what the selector kept. */
  function Process(cfg: PollConfig, msgs: seq<MimeMessage>, flags: FlagMap): PollEffect {
    match Select(msgs, cfg.selector)
    case Failure(e) => PollEffect(Failure(e), [], flags)
    case Success(retained) =>
      PollEffect(
        Output(retained, cfg.headerMapper, cfg.embeddedPartsAsBytes),
        PostProcessCalls(retained, cfg.marking, cfg.deleteMessages),
        AfterPostProcess(flags, retained, cfg.marking, cfg.deleteMessages))
  }

  /** The messages a poll goes on to flag, when it gets that far. */
  function Retained(cfg: PollConfig, t: Transport): Option<seq<MimeMessage>> {
    match t.newMessages
    case None => None
    case Some(found) =>
      var msgs := Truncate(found, cfg.maxFetchSize);
      if |msgs| > 0 && !t.fetchSucceeds then None
      else
        match Select(msgs, cfg.selector)
        case Failure(_) => None
        case Success(retained) => Some(retained)
  }

  // ---------------------------------------------------------------------
  // What a poll promises

  /** The messages a poll handles are the prefix `Truncate` leaves, and they
      are fetched in one call exactly when there are any. */
  lemma PollFetch(cfg: PollConfig, t: Transport, flags: FlagMap)
    requires t.newMessages.Some?
    ensures var msgs := Truncate(t.newMessages.value, cfg.maxFetchSize);
      var calls := Poll(cfg, t, flags).calls;
      && |calls| >= 1 && calls[0] == Search
      && (|msgs| > 0 <==> |calls| >= 2 && calls[1] == Fetch(|msgs|))
      && (cfg.maxFetchSize > 0 && |t.newMessages.value| > cfg.maxFetchSize ==> msgs == t.newMessages.value[..cfg.maxFetchSize])
      && (cfg.maxFetchSize <= 0 || |t.newMessages.value| <= cfg.maxFetchSize ==> msgs == t.newMessages.value)
  {
    var msgs := Truncate(t.newMessages.value, cfg.maxFetchSize);
    if !(|msgs| > 0 && !t.fetchSucceeds) {
      match Select(msgs, cfg.selector)
      case Failure(_) =>
      case Success(retained) =>
        var tail := PostProcessCalls(retained, cfg.marking, cfg.deleteMessages);
        assert Poll(cfg, t, flags).calls == [Search] + FetchCalls(msgs) + tail;
        PostProcessCallsPerMessage(retained, cfg.marking, cfg.deleteMessages);
    }
  }

  lemma {:induction false} FlagCallsPerMessage(msgs: seq<MimeMessage>, marking: Marking)
    ensures forall c :: c in FlagCalls(msgs, marking) ==> Target(c).Some? && !c.SetDeleted?
  {
    if msgs != [] {
      FlagCallsPerMessage(msgs[..|msgs| - 1], marking);
    }
  }

  lemma {:induction false} DeleteCallsOnly(msgs: seq<MimeMessage>)
    ensures forall c :: c in DeleteCalls(msgs) ==> c.SetDeleted?
  {
    if msgs != [] {
      DeleteCallsOnly(msgs[..|msgs| - 1]);
    }
  }

  /** Post-processing only makes per-message calls, and `\Deleted` is set
      only when deletion is configured. */
  lemma PostProcessCallsPerMessage(retained: seq<MimeMessage>, marking: Marking, deleteMessages: bool)
    ensures forall c :: c in PostProcessCalls(retained, marking, deleteMessages) ==>
      Target(c).Some? && (c.SetDeleted? ==> deleteMessages)
  {
    FlagCallsPerMessage(retained, marking);
    DeleteCallsOnly(retained);
  }

  /** A poll that fails before post-processing touches no message. */
  lemma PollFailsEarly(cfg: PollConfig, t: Transport, flags: FlagMap, id: MsgId)
    requires Retained(cfg, t).None?
    ensures Poll(cfg, t, flags).result.Failure?
    ensures Poll(cfg, t, flags).flags == flags
    ensures About(Poll(cfg, t, flags).calls, id) == []
  {
    var calls := Poll(cfg, t, flags).calls;
    assert forall c :: c in calls ==> Target(c).None?;
    NoTargetNoAbout(calls, id);
  }

  lemma {:induction false} NoTargetNoAbout(calls: seq<Call>, id: MsgId)
    requires forall c :: c in calls ==> Target(c).None?
    ensures About(calls, id) == []
  {
    if calls != [] {
      assert calls[|calls| - 1] in calls;
      NoTargetNoAbout(calls[..|calls| - 1], id);
    }
  }

  /** The calls of a poll that reaches post-processing, as seen by one
      message: exactly those of post-processing. */
  lemma AboutPoll(cfg: PollConfig, t: Transport, flags: FlagMap, id: MsgId)
    requires Retained(cfg, t).Some?
    ensures var retained := Retained(cfg, t).value;
      About(Poll(cfg, t, flags).calls, id) ==
        Repeat(MessageFlagCalls(id, cfg.marking), Count(retained, id))
        + (if cfg.deleteMessages then Repeat([SetDeleted(id)], Count(retained, id)) else [])
  {
    var retained := Retained(cfg, t).value;
    var msgs := Truncate(t.newMessages.value, cfg.maxFetchSize);
    var head := [Search] + FetchCalls(msgs);
    assert forall c :: c in head ==> Target(c).None?;
    NoTargetNoAbout(head, id);
    AboutAppend(head, PostProcessCalls(retained, cfg.marking, cfg.deleteMessages), id);
    FlagCallsAbout(retained, cfg.marking, id);
    if cfg.deleteMessages {
      AboutAppend(FlagCalls(retained, cfg.marking), DeleteCalls(retained), id);
      DeleteCallsAbout(retained, id);
    } else {
      assert PostProcessCalls(retained, cfg.marking, false) == FlagCalls(retained, cfg.marking);
    }
  }

  /** A retained message (carrying an id no other retained message carries)
      gets exactly one base flag call as the flag strategy decides, one call
      of the additional-flags hook, and a `\Deleted` flag exactly when
      deletion is configured; its server flags grow by exactly those flags. */
  lemma PollMarksRetained(cfg: PollConfig, t: Transport, flags: FlagMap, id: MsgId)
    requires Retained(cfg, t).Some? && Count(Retained(cfg, t).value, id) == 1
    ensures About(Poll(cfg, t, flags).calls, id) ==
      MarkCalls(id, cfg.marking) + [AdditionalFlags(id)] + (if cfg.deleteMessages then [SetDeleted(id)] else [])
    ensures Lookup(Poll(cfg, t, flags).flags, id) ==
      Lookup(flags, id) + MarkFlags(cfg.marking) + (if cfg.deleteMessages then {Deleted} else {})
  {
    var retained := Retained(cfg, t).value;
    AboutPoll(cfg, t, flags, id);
    assert Repeat(MessageFlagCalls(id, cfg.marking), 1) == MessageFlagCalls(id, cfg.marking);
    assert Repeat([SetDeleted(id)], 1) == [SetDeleted(id)];
    CountZero(retained, id);
    var marked := AddToAll(flags, retained, MarkFlags(cfg.marking));
    AddToAllLookup(flags, retained, MarkFlags(cfg.marking), id);
    AddToAllLookup(marked, retained, {Deleted}, id);
  }

  /** Every retained message, however often it was retained, has its server
      flags grown by exactly the flag the strategy chooses and, when deletion
      is configured, `\Deleted`. */
  lemma PollFlagsRetained(cfg: PollConfig, t: Transport, flags: FlagMap, id: MsgId)
    requires Retained(cfg, t).Some? && id in Ids(Retained(cfg, t).value)
    ensures Lookup(Poll(cfg, t, flags).flags, id) ==
      Lookup(flags, id) + MarkFlags(cfg.marking) + (if cfg.deleteMessages then {Deleted} else {})
  {
    var retained := Retained(cfg, t).value;
    var marked := AddToAll(flags, retained, MarkFlags(cfg.marking));
    AddToAllLookup(flags, retained, MarkFlags(cfg.marking), id);
    AddToAllLookup(marked, retained, {Deleted}, id);
  }

  /** A message the poll does not retain (not found, beyond the bound, or
      rejected by the selector) is never flagged nor deleted: no call is about
      it, and its server flags are as they were. */
  lemma PollLeavesOthersUntouched(cfg: PollConfig, t: Transport, flags: FlagMap, id: MsgId)
    requires Retained(cfg, t).Some? ==> id !in Ids(Retained(cfg, t).value)
    ensures About(Poll(cfg, t, flags).calls, id) == []
    ensures Lookup(Poll(cfg, t, flags).flags, id) == Lookup(flags, id)
    ensures id in Poll(cfg, t, flags).flags <==> id in flags
  {
    if Retained(cfg, t).None? {
      PollFailsEarly(cfg, t, flags, id);
    } else {
      var retained := Retained(cfg, t).value;
      AboutPoll(cfg, t, flags, id);
      CountZero(retained, id);
      var marked := AddToAll(flags, retained, MarkFlags(cfg.marking));
      AddToAllLookup(flags, retained, MarkFlags(cfg.marking), id);
      AddToAllLookup(marked, retained, {Deleted}, id);
    }
  }

  /** Every message the selector rejects is not retained, so the lemma above
      applies to it. */
  lemma RejectedNotRetained(cfg: PollConfig, t: Transport, id: MsgId)
    requires t.newMessages.Some?
    requires forall m :: m in Truncate(t.newMessages.value, cfg.maxFetchSize) && m.id == id ==>
      cfg.selector.Some? && cfg.selector.value(m) == Some(false)
    ensures Retained(cfg, t).Some? ==> id !in Ids(Retained(cfg, t).value)
  {
    var msgs := Truncate(t.newMessages.value, cfg.maxFetchSize);
    if Retained(cfg, t).Some? {
      var retained := Retained(cfg, t).value;
      SelectCharacterised(msgs, cfg.selector);
    }
  }

  /** A poll neither connects nor closes anything: every call it makes is
      the search, the fetch or a call about one message. */
  lemma PollNeverCloses(cfg: PollConfig, t: Transport, flags: FlagMap)
    ensures forall c :: c in Poll(cfg, t, flags).calls ==>
      !IsConnectionCall(c) && !c.CloseFolder? && !c.CloseStore?
  {
    if Retained(cfg, t).Some? {
      PostProcessCallsPerMessage(Retained(cfg, t).value, cfg.marking, cfg.deleteMessages);
    }
  }

  /** With deletion configured, expunging after a poll removes every message
      the poll retained, and removes any other message exactly when it was
      already marked deleted. */
  lemma PollThenExpunge(cfg: PollConfig, t: Transport, flags: FlagMap, id: MsgId)
    requires cfg.deleteMessages
    ensures Retained(cfg, t).Some? && id in Ids(Retained(cfg, t).value) ==>
      id !in Expunge(Poll(cfg, t, flags).flags)
    ensures Retained(cfg, t).None? || id !in Ids(Retained(cfg, t).value) ==>
      (id in Expunge(Poll(cfg, t, flags).flags) <==> id in flags && Deleted !in flags[id])
  {
    if Retained(cfg, t).Some? && id in Ids(Retained(cfg, t).value) {
      var retained := Retained(cfg, t).value;
      var marked := AddToAll(flags, retained, MarkFlags(cfg.marking));
      AddToAllLookup(marked, retained, {Deleted}, id);
    } else {
      PollLeavesOthersUntouched(cfg, t, flags, id);
    }
  }

  /** Without deletion configured, a poll sets `\Deleted` on nothing. */
  lemma PollWithoutDeletion(cfg: PollConfig, t: Transport, flags: FlagMap)
    requires !cfg.deleteMessages
    ensures forall c :: c in Poll(cfg, t, flags).calls ==> !c.SetDeleted?
  {
    if Retained(cfg, t).Some? {
      var retained := Retained(cfg, t).value;
      PostProcessCallsPerMessage(retained, cfg.marking, false);
    }
  }

  /** Applying `f` to every message succeeds exactly when it succeeds on
      each; it then holds one result per message, in order, and otherwise
      fails with the error of the first message it fails on. */
  lemma EachOfCharacterised(msgs: seq<MimeMessage>, f: MimeMessage -> Result<Received>)
    ensures EachOf(msgs, f).Success? <==> forall i :: 0 <= i < |msgs| ==> f(msgs[i]).Success?
    ensures EachOf(msgs, f).Success? ==>
      && |EachOf(msgs, f).value| == |msgs|
      && forall i :: 0 <= i < |msgs| ==> EachOf(msgs, f).value[i] == f(msgs[i]).value
    ensures EachOf(msgs, f).Failure? ==>
      exists i :: 0 <= i < |msgs| && f(msgs[i]).Failure? && EachOf(msgs, f).error == f(msgs[i]).error
        && forall j :: 0 <= j < i ==> f(msgs[j]).Success?
  {
    EachOfSucceeds(msgs, f);
    EachOfFails(msgs, f);
  }

  lemma {:induction false} EachOfSucceeds(msgs: seq<MimeMessage>, f: MimeMessage -> Result<Received>)
    ensures EachOf(msgs, f).Success? ==>
      && |EachOf(msgs, f).value| == |msgs|
      && forall i :: 0 <= i < |msgs| ==> f(msgs[i]).Success? && EachOf(msgs, f).value[i] == f(msgs[i]).value
  {
    if msgs != [] {
      var front := msgs[..|msgs| - 1];
      EachOfSucceeds(front, f);
      assert forall i :: 0 <= i < |front| ==> msgs[i] == front[i];
    }
  }

  lemma {:induction false} EachOfFails(msgs: seq<MimeMessage>, f: MimeMessage -> Result<Received>)
    ensures EachOf(msgs, f).Failure? ==>
      exists i :: 0 <= i < |msgs| && f(msgs[i]).Failure? && EachOf(msgs, f).error == f(msgs[i]).error
        && forall j :: 0 <= j < i ==> f(msgs[j]).Success?
  {
    if msgs != [] {
      var front, last := msgs[..|msgs| - 1], msgs[|msgs| - 1];
      match EachOf(front, f)
      case Failure(e) =>
        EachOfFails(front, f);
        var i :| 0 <= i < |front| && f(front[i]).Failure? && e == f(front[i]).error
          && forall j :: 0 <= j < i ==> f(front[j]).Success?;
        assert forall j :: 0 <= j <= i ==> msgs[j] == front[j];
      case Success(done) =>
        EachOfSucceeds(front, f);
        assert forall j :: 0 <= j < |front| ==> msgs[j] == front[j];
        assert msgs[|msgs| - 1] == last;
    }
  }

  /** Once a prefix fails, the whole run fails with the same error. */
  lemma {:induction false} EachOfFailureSticks(msgs: seq<MimeMessage>, f: MimeMessage -> Result<Received>, k: nat)
    requires k <= |msgs|
    requires EachOf(msgs[..k], f).Failure?
    ensures EachOf(msgs, f) == EachOf(msgs[..k], f)
    decreases |msgs| - k
  {
    if k < |msgs| {
      assert msgs[..|msgs| - 1][..k] == msgs[..k];
      EachOfFailureSticks(msgs[..|msgs| - 1], f, k);
    } else {
      assert msgs[..k] == msgs;
    }
  }

  /** Converting one message fails exactly when the header mapper or the
      extraction fails, naming the message either way; otherwise it carries
      the extracted payload and the headers after the content type is
      written. */
  lemma ConvertOne(m: MimeMessage, mapper: HeaderMapper, embeddedPartsAsBytes: bool)
    ensures ConvertWith(mapper, embeddedPartsAsBytes)(m) == Convert(m, mapper, embeddedPartsAsBytes)
    ensures Convert(m, mapper, embeddedPartsAsBytes).Failure? <==>
      mapper(m).None? || ExtractContent(m, mapper(m).value, embeddedPartsAsBytes).Failure?
    ensures Convert(m, mapper, embeddedPartsAsBytes).Failure? ==>
      Convert(m, mapper, embeddedPartsAsBytes).error == if mapper(m).None? then MappingFailed(m.id) else ExtractionFailed(m.id)
    ensures Convert(m, mapper, embeddedPartsAsBytes).Success? ==>
      var x := ExtractContent(m, mapper(m).value, embeddedPartsAsBytes).value;
      Convert(m, mapper, embeddedPartsAsBytes).value == Converted(x.0, x.1)
  {
  }

  /** The conversion succeeds exactly when every retained message's headers
      can be mapped and its content extracted; it then holds one converted
      message per retained message, in order, and otherwise names the first
      message that failed. */
  lemma ConvertAllCharacterised(msgs: seq<MimeMessage>, mapper: HeaderMapper, embeddedPartsAsBytes: bool)
    ensures ConvertAll(msgs, mapper, embeddedPartsAsBytes).Success? <==>
      forall i :: 0 <= i < |msgs| ==> Convert(msgs[i], mapper, embeddedPartsAsBytes).Success?
    ensures ConvertAll(msgs, mapper, embeddedPartsAsBytes).Success? ==>
      var out := ConvertAll(msgs, mapper, embeddedPartsAsBytes).value;
      && |out| == |msgs|
      && forall i :: 0 <= i < |msgs| ==> out[i] == Convert(msgs[i], mapper, embeddedPartsAsBytes).value
    ensures ConvertAll(msgs, mapper, embeddedPartsAsBytes).Failure? ==>
      exists i :: 0 <= i < |msgs| && Convert(msgs[i], mapper, embeddedPartsAsBytes).Failure?
        && ConvertAll(msgs, mapper, embeddedPartsAsBytes).error == Convert(msgs[i], mapper, embeddedPartsAsBytes).error
        && forall j :: 0 <= j < i ==> Convert(msgs[j], mapper, embeddedPartsAsBytes).Success?
  {
    var f := ConvertWith(mapper, embeddedPartsAsBytes);
    assert forall m :: f(m) == Convert(m, mapper, embeddedPartsAsBytes);
    EachOfCharacterised(msgs, f);
  }

  /** Detaching succeeds exactly when every retained message can be copied;
      it then holds the copy of each retained message, in order, and
      otherwise names the first message whose copy failed. */
  lemma DetachAllCharacterised(retained: seq<MimeMessage>)
    ensures DetachAll(retained).Success? <==> forall i :: 0 <= i < |retained| ==> retained[i].copyable
    ensures DetachAll(retained).Success? ==>
      var out := DetachAll(retained).value;
      && |out| == |retained|
      && forall i :: 0 <= i < |retained| ==> out[i] == Mail(Copy(retained[i]))
    ensures DetachAll(retained).Failure? ==>
      exists i :: 0 <= i < |retained| && !retained[i].copyable
        && DetachAll(retained).error == CopyFailed(retained[i].id)
        && forall j :: 0 <= j < i ==> retained[j].copyable
  {
    EachOfCharacterised(retained, Detach);
  }

  /** A copy answers the received date and the line count of the message it
      was made from. */
  lemma CopiesKeepDateAndLines(retained: seq<MimeMessage>)
    requires DetachAll(retained).Success?
    ensures var out := DetachAll(retained).value;
      && |out| == |retained|
      && forall i :: 0 <= i < |retained| ==>
           out[i].Mail? && out[i].item.Copy?
           && out[i].item.ReceivedDate() == retained[i].receivedDate
           && out[i].item.LineCount() == retained[i].lineCount
  {
    DetachAllCharacterised(retained);
  }

  /** With a header mapper a successful poll returns one converted message per
      retained message, in order; without one, the copies of the retained
      messages, in order. */
  lemma PollOutput(cfg: PollConfig, t: Transport, flags: FlagMap)
    requires Poll(cfg, t, flags).result.Success?
    ensures Retained(cfg, t).Some?
    ensures var retained := Retained(cfg, t).value;
      var out := Poll(cfg, t, flags).result.value;
      && |out| == |retained|
      && (cfg.headerMapper.None? ==> forall i :: 0 <= i < |out| ==> out[i] == Mail(Copy(retained[i])))
      && (cfg.headerMapper.Some? ==> forall i :: 0 <= i < |out| ==>
            var c := Convert(retained[i], cfg.headerMapper.value, cfg.embeddedPartsAsBytes);
            c.Success? && out[i] == c.value)
  {
    var retained := Retained(cfg, t).value;
    if cfg.headerMapper.Some? {
      ConvertAllCharacterised(retained, cfg.headerMapper.value, cfg.embeddedPartsAsBytes);
    } else {
      DetachAllCharacterised(retained);
    }
  }
}
