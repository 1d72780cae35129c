/** The selector filter: which of the fetched messages go on to be flagged,
    deleted and returned. */
module SelectorFilter {
  import opened MailTypes

  /** A selector evaluated against a message: a boolean, or None when the
      evaluation fails or does not yield a boolean. */
  type Selector = MimeMessage -> Option<bool>

  /** `a` is `b` with some elements left out, the rest in their order. */
  predicate IsSubsequence<T(==)>(a: seq<T>, b: seq<T>)
    decreases |b|
  {
    if a == [] then true
    else if b == [] then false
    else if a[|a| - 1] == b[|b| - 1] then IsSubsequence(a[..|a| - 1], b[..|b| - 1])
    else IsSubsequence(a, b[..|b| - 1])
  }

  /** The messages a configured selector keeps, evaluated in order; the first
      evaluation that yields no boolean ends the filtering with an error. */
  function SelectBy(msgs: seq<MimeMessage>, p: Selector): Result<seq<MimeMessage>>
  {
    if msgs == [] then Success([])
    else
      var last := msgs[|msgs| - 1];
      match SelectBy(msgs[..|msgs| - 1], p)
      case Failure(e) => Failure(e)
      case Success(kept) =>
        match p(last)
        case None => Failure(SelectorFailed(last.id))
        case Some(accepted) => if accepted then Success(kept + [last]) else Success(kept)
  }

  /** `filterMessagesThruSelector`: without a selector every message passes. */
  function Select(msgs: seq<MimeMessage>, selector: Option<Selector>): Result<seq<MimeMessage>>
  {
    match selector
    case None => Success(msgs)
    case Some(p) => SelectBy(msgs, p)
  }

  lemma {:induction false} SubsequenceDropLast<T>(a: seq<T>, b: seq<T>)
    requires a != [] && IsSubsequence(a, b)
    ensures IsSubsequence(a[..|a| - 1], b)
    decreases |b|, 0
  {
    var a', b' := a[..|a| - 1], b[..|b| - 1];
    if a' == [] {
    } else if a[|a| - 1] == b[|b| - 1] {
      // IsSubsequence(a', b') holds; extend it by the last element of b
      SubsequenceExtend(a', b', b[|b| - 1]);
      assert b' + [b[|b| - 1]] == b;
    } else {
      SubsequenceDropLast(a, b');
      SubsequenceExtend(a', b', b[|b| - 1]);
      assert b' + [b[|b| - 1]] == b;
    }
  }

  lemma {:induction false} SubsequenceExtend<T>(a: seq<T>, b: seq<T>, x: T)
    requires IsSubsequence(a, b)
    ensures IsSubsequence(a, b + [x])
    decreases |b|, 1
  {
    var b2 := b + [x];
    assert b2[..|b2| - 1] == b;
    if a != [] && a[|a| - 1] == x {
      SubsequenceDropLast(a, b);
    }
  }

  /** Once a prefix fails, the whole selection fails with the same error. */
  lemma {:induction false} FailureSticks(msgs: seq<MimeMessage>, p: Selector, k: nat)
    requires k <= |msgs|
    requires SelectBy(msgs[..k], p).Failure?
    ensures SelectBy(msgs, p) == SelectBy(msgs[..k], p)
    decreases |msgs| - k
  {
    if k < |msgs| {
      assert msgs[..|msgs| - 1][..k] == msgs[..k];
      FailureSticks(msgs[..|msgs| - 1], p, k);
    } else {
      assert msgs[..k] == msgs;
    }
  }

  /** The selection fails exactly when some evaluation yields no boolean, and
      then names the first such message; otherwise it keeps, in their order,
      exactly the messages the selector accepts, each as often as it occurs. */
  lemma {:induction false} SelectByCharacterised(msgs: seq<MimeMessage>, p: Selector)
    ensures SelectBy(msgs, p).Success? <==> forall i :: 0 <= i < |msgs| ==> p(msgs[i]).Some?
    ensures SelectBy(msgs, p).Failure? ==>
      exists i :: 0 <= i < |msgs| && p(msgs[i]).None? && SelectBy(msgs, p).error == SelectorFailed(msgs[i].id)
        && forall j :: 0 <= j < i ==> p(msgs[j]).Some?
    ensures SelectBy(msgs, p).Success? ==>
      var kept := SelectBy(msgs, p).value;
      && IsSubsequence(kept, msgs)
      && (forall m :: m in kept ==> p(m) == Some(true))
      && (forall m :: multiset(kept)[m] == if p(m) == Some(true) then multiset(msgs)[m] else 0)
  {
    if msgs != [] {
      var front, last := msgs[..|msgs| - 1], msgs[|msgs| - 1];
      assert msgs == front + [last];
      SelectByCharacterised(front, p);
      match SelectBy(front, p)
      case Failure(e) =>
        var i :| 0 <= i < |front| && p(front[i]).None? && e == SelectorFailed(front[i].id)
          && forall j :: 0 <= j < i ==> p(front[j]).Some?;
        assert msgs[i] == front[i];
      case Success(kept) =>
        if p(last).None? {
          assert msgs[|msgs| - 1] == last;
        } else {
          assert forall i :: 0 <= i < |msgs| ==> p(msgs[i]).Some? by {
            forall i | 0 <= i < |msgs| ensures p(msgs[i]).Some? {
              if i < |front| { assert msgs[i] == front[i]; }
            }
          }
          assert multiset(msgs) == multiset(front) + multiset{last};
          if p(last) == Some(true) {
            var kept' := kept + [last];
            assert kept'[..|kept'| - 1] == kept;
            assert multiset(kept') == multiset(kept) + multiset{last};
          } else {
            SubsequenceExtend(kept, front, last);
          }
        }
    }
  }

  /** Without a selector every message passes; with one, the result is the
      selection above. */
  lemma SelectCharacterised(msgs: seq<MimeMessage>, selector: Option<Selector>)
    ensures selector.None? ==> Select(msgs, selector) == Success(msgs)
    ensures selector.Some? && Select(msgs, selector).Success? ==>
      var kept := Select(msgs, selector).value;
      && IsSubsequence(kept, msgs)
      && (forall m :: m in kept ==> selector.value(m) == Some(true))
      && (forall m :: multiset(kept)[m] == if selector.value(m) == Some(true) then multiset(msgs)[m] else 0)
  {
    if selector.Some? {
      SelectByCharacterised(msgs, selector.value);
    }
  }
}
