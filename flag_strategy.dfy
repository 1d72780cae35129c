/** The flag strategy: how retained messages are marked as seen and, when
    configured, as deleted, both as calls into the transport and as their
    effect on the folder's flags. */
module FlagStrategy {
  import opened MailTypes

  /** The flags the server holds, per message. */
  type FlagMap = map<MsgId, set<Flag>>

  /** How retained messages are marked, decided once per poll. */
  datatype Marking = NoMark | MarkKeyword(name: string) | MarkFlagged

  /** The decision `setMessageFlags` takes from the folder's permanent flags
      (None: the folder reports none): a server that keeps `\Recent` needs no
      marking; one that accepts keywords gets the configured user flag; any
      other gets `\Flagged`. */
  function ChooseMarking(permanentFlags: Option<set<Flag>>, userFlag: string): Marking {
    if permanentFlags.Some? && Recent in permanentFlags.value then NoMark
    else if permanentFlags.Some? && UserDefined in permanentFlags.value then MarkKeyword(userFlag)
    else MarkFlagged
  }

  /** The flags a marking sets. */
  function MarkFlags(marking: Marking): set<Flag> {
    match marking
    case NoMark => {}
    case MarkKeyword(name) => {Keyword(name)}
    case MarkFlagged => {Flagged}
  }

  /** The base flag call for one message. */
  function MarkCalls(id: MsgId, marking: Marking): seq<Call> {
    match marking
    case NoMark => []
    case MarkKeyword(name) => [SetKeyword(id, name)]
    case MarkFlagged => [SetFlagged(id)]
  }

  /** The calls `setMessageFlags` makes for one message: the base flag, then
      the additional-flags hook. */
  function MessageFlagCalls(id: MsgId, marking: Marking): seq<Call> {
    MarkCalls(id, marking) + [AdditionalFlags(id)]
  }

  /** The calls `setMessageFlags` makes, message by message. */
  function FlagCalls(msgs: seq<MimeMessage>, marking: Marking): seq<Call> {
    if msgs == [] then []
    else FlagCalls(msgs[..|msgs| - 1], marking) + MessageFlagCalls(msgs[|msgs| - 1].id, marking)
  }

  /** The calls `deleteMessages` makes, message by message. */
  function DeleteCalls(msgs: seq<MimeMessage>): seq<Call> {
    if msgs == [] then []
    else DeleteCalls(msgs[..|msgs| - 1]) + [SetDeleted(msgs[|msgs| - 1].id)]
  }

  function Lookup(flags: FlagMap, id: MsgId): set<Flag> {
    if id in flags then flags[id] else {}
  }

  /** `Message.setFlags(add, true)` on the server: `add` joins the message's
      flags; adding nothing touches nothing. */
  function AddFlags(flags: FlagMap, id: MsgId, add: set<Flag>): FlagMap {
    if add == {} then flags else flags[id := Lookup(flags, id) + add]
  }

  /** `add` set on every message of `msgs`, in order. */
  function AddToAll(flags: FlagMap, msgs: seq<MimeMessage>, add: set<Flag>): FlagMap {
    if msgs == [] then flags
    else AddFlags(AddToAll(flags, msgs[..|msgs| - 1], add), msgs[|msgs| - 1].id, add)
  }

  function Ids(msgs: seq<MimeMessage>): set<MsgId> {
    set m | m in msgs :: m.id
  }

  /** How many of `msgs` carry `id`. */
  function Count(msgs: seq<MimeMessage>, id: MsgId): nat {
    if msgs == [] then 0
    else Count(msgs[..|msgs| - 1], id) + (if msgs[|msgs| - 1].id == id then 1 else 0)
  }

  /** The calls of `calls` that are about message `id`, in order. */
  function About(calls: seq<Call>, id: MsgId): seq<Call> {
    if calls == [] then []
    else About(calls[..|calls| - 1], id) + (if Target(calls[|calls| - 1]) == Some(id) then [calls[|calls| - 1]] else [])
  }

  function Repeat<T>(s: seq<T>, n: nat): seq<T> {
    if n == 0 then [] else Repeat(s, n - 1) + s
  }

  /** Exactly one of the three branches is taken, and it sets at most one
      flag. */
  lemma MarkingDecision(permanentFlags: Option<set<Flag>>, userFlag: string, id: MsgId)
    ensures var m := ChooseMarking(permanentFlags, userFlag);
      && (m == NoMark <==> permanentFlags.Some? && Recent in permanentFlags.value)
      && (m == MarkKeyword(userFlag) <==>
            permanentFlags.Some? && Recent !in permanentFlags.value && UserDefined in permanentFlags.value)
      && (m == MarkFlagged <==>
            permanentFlags.None? || (Recent !in permanentFlags.value && UserDefined !in permanentFlags.value))
      && |MarkCalls(id, m)| == |MarkFlags(m)| <= 1
  {
  }

  lemma {:induction false} IdsOfAppend(msgs: seq<MimeMessage>)
    requires msgs != []
    ensures Ids(msgs) == Ids(msgs[..|msgs| - 1]) + {msgs[|msgs| - 1].id}
  {
    assert msgs == msgs[..|msgs| - 1] + [msgs[|msgs| - 1]];
  }

  /** Setting `add` on every message of `msgs` adds it to exactly those
      messages and leaves every other message as it was. */
  lemma {:induction false} AddToAllLookup(flags: FlagMap, msgs: seq<MimeMessage>, add: set<Flag>, id: MsgId)
    ensures Lookup(AddToAll(flags, msgs, add), id) ==
      if id in Ids(msgs) then Lookup(flags, id) + add else Lookup(flags, id)
    ensures id in AddToAll(flags, msgs, add) <==> id in flags || (add != {} && id in Ids(msgs))
  {
    if msgs != [] {
      IdsOfAppend(msgs);
      AddToAllLookup(flags, msgs[..|msgs| - 1], add, id);
    }
  }

  lemma {:induction false} AboutAppend(a: seq<Call>, b: seq<Call>, id: MsgId)
    ensures About(a + b, id) == About(a, id) + About(b, id)
    decreases |b|
  {
    if b != [] {
      var ab := a + b;
      assert ab[..|ab| - 1] == a + b[..|b| - 1];
      AboutAppend(a, b[..|b| - 1], id);
    } else {
      assert a + b == a;
    }
  }

  lemma AboutSingle(c: Call, id: MsgId)
    ensures About([c], id) == if Target(c) == Some(id) then [c] else []
  {
    assert [c][..0] == [];
  }

  lemma MessageFlagCallsAbout(target: MsgId, marking: Marking, id: MsgId)
    ensures About(MessageFlagCalls(target, marking), id) == if target == id then MessageFlagCalls(id, marking) else []
  {
    var hook := AdditionalFlags(target);
    AboutSingle(hook, id);
    match marking
    case NoMark =>
      assert MessageFlagCalls(target, marking) == [hook];
    case MarkKeyword(name) =>
      AboutAppend([SetKeyword(target, name)], [hook], id);
      AboutSingle(SetKeyword(target, name), id);
    case MarkFlagged =>
      AboutAppend([SetFlagged(target)], [hook], id);
      AboutSingle(SetFlagged(target), id);
  }

  /** The last message of `msgs` adds its own flag calls to what the others
      received. */
  lemma FlagCallsStep(msgs: seq<MimeMessage>, marking: Marking, id: MsgId)
    requires msgs != []
    ensures About(FlagCalls(msgs, marking), id) ==
      About(FlagCalls(msgs[..|msgs| - 1], marking), id)
      + (if msgs[|msgs| - 1].id == id then MessageFlagCalls(id, marking) else [])
  {
    var front, last := msgs[..|msgs| - 1], msgs[|msgs| - 1].id;
    AboutAppend(FlagCalls(front, marking), MessageFlagCalls(last, marking), id);
    MessageFlagCallsAbout(last, marking, id);
  }

  lemma {:induction false} FlagCallsAbout(msgs: seq<MimeMessage>, marking: Marking, id: MsgId)
    ensures About(FlagCalls(msgs, marking), id) == Repeat(MessageFlagCalls(id, marking), Count(msgs, id))
  {
    if msgs != [] {
      var front := msgs[..|msgs| - 1];
      FlagCallsAbout(front, marking, id);
      FlagCallsStep(msgs, marking, id);
      if msgs[|msgs| - 1].id == id {
        assert Count(msgs, id) == Count(front, id) + 1;
      } else {
        assert Count(msgs, id) == Count(front, id);
      }
    }
  }

  /** Likewise `deleteMessages` sets `\Deleted` once per occurrence. */
  lemma {:induction false} DeleteCallsAbout(msgs: seq<MimeMessage>, id: MsgId)
    ensures About(DeleteCalls(msgs), id) == Repeat([SetDeleted(id)], Count(msgs, id))
  {
    if msgs != [] {
      var front, last := msgs[..|msgs| - 1], msgs[|msgs| - 1].id;
      var k := Count(front, id);
      assert DeleteCalls(msgs) == DeleteCalls(front) + [SetDeleted(last)];
      DeleteCallsAbout(front, id);
      AboutAppend(DeleteCalls(front), [SetDeleted(last)], id);
      AboutSingle(SetDeleted(last), id);
      if last == id {
        assert Count(msgs, id) == k + 1;
        assert Repeat([SetDeleted(id)], k + 1) == Repeat([SetDeleted(id)], k) + [SetDeleted(id)];
      } else {
        assert Count(msgs, id) == k;
      }
    }
  }

  lemma {:induction false} CountZero(msgs: seq<MimeMessage>, id: MsgId)
    ensures Count(msgs, id) == 0 <==> id !in Ids(msgs)
  {
    if msgs != [] {
      IdsOfAppend(msgs);
      CountZero(msgs[..|msgs| - 1], id);
    }
  }
}
