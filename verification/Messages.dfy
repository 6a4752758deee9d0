/** The message queue of libburn/libdax_msgs.c as a value: what submitting and obtaining mean. */
module Messages {
  import opened Options

  datatype Message = Message(origin: int, errorCode: int, severity: int, priority: int, text: string, osErrno: int)

  predicate Wanted(m: Message, severity: int, priority: int) { m.severity >= severity && m.priority >= priority }

  /** libdax_msgs_submit: messages below the queue severity are not stored. */
  function Submit(q: seq<Message>, m: Message, queueSeverity: int): seq<Message>
  {
    if m.severity < queueSeverity then q else q + [m]
  }

  /** libdax_msgs_obtain: the message found, if any, and the queue left behind. */
  function Obtain(q: seq<Message>, severity: int, priority: int): (r: (Option<Message>, seq<Message>))
  {
    if q == [] then (None, [])
    else if q[0].severity < severity then Obtain(q[1..], severity, priority)
    else if q[0].priority < priority then
      var r := Obtain(q[1..], severity, priority);
      (r.0, [q[0]] + r.1)
    else (Some(q[0]), q[1..])
  }

  function Severe(q: seq<Message>, severity: int): seq<Message>
  {
    if q == [] then [] else (if q[0].severity >= severity then [q[0]] else []) + Severe(q[1..], severity)
  }

  /** The index of the oldest wanted message, or the length of the queue. */
  function Oldest(q: seq<Message>, severity: int, priority: int): (i: nat)
    ensures i <= |q|
    ensures i < |q| ==> Wanted(q[i], severity, priority)
    ensures forall j | 0 <= j < i :: !Wanted(q[j], severity, priority)
  {
    if q == [] then 0
    else if Wanted(q[0], severity, priority) then 0
    else
      var i := Oldest(q[1..], severity, priority);
      assert forall j | 1 <= j < i + 1 :: q[j] == q[1..][j - 1];
      i + 1
  }

  /** Obtain hands out the oldest wanted message; of the older ones it keeps, in order, those
      that are severe enough; the younger ones are untouched. */
  lemma {:induction false} ObtainOldest(q: seq<Message>, severity: int, priority: int)
    ensures var i := Oldest(q, severity, priority);
            Obtain(q, severity, priority) == if i < |q| then (Some(q[i]), Severe(q[..i], severity) + q[i + 1..])
                                             else (None, Severe(q, severity))
  {
    if q == [] {
    } else if Wanted(q[0], severity, priority) {
      assert Severe(q[..0], severity) + q[1..] == q[1..];
    } else {
      var i := Oldest(q[1..], severity, priority);
      ObtainOldest(q[1..], severity, priority);
      var head := if q[0].severity >= severity then [q[0]] else [];
      if i + 1 < |q| {
        assert q[..i + 1][1..] == q[1..][..i] && q[1..][i + 1..] == q[i + 2..];
        assert head + (Severe(q[1..][..i], severity) + q[i + 2..]) == Severe(q[..i + 1], severity) + q[i + 2..];
      }
      assert [] + Obtain(q[1..], severity, priority).1 == Obtain(q[1..], severity, priority).1;
    }
  }

  lemma {:induction false} SevereSays(q: seq<Message>, severity: int, m: Message)
    ensures multiset(Severe(q, severity))[m] == if m.severity >= severity then multiset(q)[m] else 0
  {
    if q != [] {
      SevereSays(q[1..], severity, m);
      assert q == [q[0]] + q[1..];
      assert multiset(q) == multiset{q[0]} + multiset(q[1..]);
      assert multiset([q[0]] + Severe(q[1..], severity)) == multiset{q[0]} + multiset(Severe(q[1..], severity));
      assert [] + Severe(q[1..], severity) == Severe(q[1..], severity);
    }
  }

  /** The result in comparisons alone: the first message that has at least the severity and at
      least the priority; it is gone then, and so are the messages before it, or all if there is
      none, that have less than the severity. */
  lemma ObtainSays(q: seq<Message>, severity: int, priority: int) returns (i: nat, kept: seq<Message>)
    ensures i <= |q| && forall j | 0 <= j < i :: q[j].severity < severity || q[j].priority < priority
    ensures i < |q| ==> q[i].severity >= severity && q[i].priority >= priority
    ensures Obtain(q, severity, priority) == if i < |q| then (Some(q[i]), kept + q[i + 1..]) else (None, kept)
    ensures Subsequence(kept, q[..i])
    ensures forall m :: multiset(kept)[m] == if m.severity >= severity then multiset(q[..i])[m] else 0
  {
    i := Oldest(q, severity, priority);
    kept := Severe(q[..i], severity);
    ObtainOldest(q, severity, priority);
    SevereInOrder(q[..i], severity);
    forall m
      ensures multiset(kept)[m] == if m.severity >= severity then multiset(q[..i])[m] else 0
    {
      SevereSays(q[..i], severity, m);
    }
    assert q[..|q|] == q;
  }

  lemma {:induction false} SevereInOrder(q: seq<Message>, severity: int)
    ensures Subsequence(Severe(q, severity), q)
  {
    if q != [] {
      SevereInOrder(q[1..], severity);
      var s := Severe(q[1..], severity);
      assert ([q[0]] + s)[1..] == s && [] + s == s;
    }
  }

  // ------------------------------------------------------- the walk along the queue

  /** After some steps of the walk: the items kept so far, and those still to be looked at. */
  predicate SoFar(q: seq<Message>, kept: seq<Message>, rest: seq<Message>, severity: int, priority: int)
  {
    var r := Obtain(rest, severity, priority);
    Obtain(q, severity, priority) == (r.0, kept + r.1)
  }

  lemma WalkStarts(q: seq<Message>, severity: int, priority: int)
    ensures SoFar(q, [], q, severity, priority)
  {
    assert [] + Obtain(q, severity, priority).1 == Obtain(q, severity, priority).1;
  }

  lemma WalkDrops(q: seq<Message>, kept: seq<Message>, rest: seq<Message>, severity: int, priority: int)
    requires SoFar(q, kept, rest, severity, priority) && rest != [] && rest[0].severity < severity
    ensures SoFar(q, kept, rest[1..], severity, priority)
  {
  }

  lemma WalkDropsAt(q: seq<Message>, now: seq<Message>, k: nat, severity: int, priority: int)
    requires k < |now| && SoFar(q, now[..k], now[k..], severity, priority) && now[k].severity < severity
    ensures var after := now[..k] + now[k + 1..]; SoFar(q, after[..k], after[k..], severity, priority)
  {
    hide SoFar;
    WalkDrops(q, now[..k], now[k..], severity, priority);
    var after := now[..k] + now[k + 1..];
    assert after[..k] == now[..k] && after[k..] == now[k..][1..];
  }

  lemma WalkKeeps(q: seq<Message>, kept: seq<Message>, rest: seq<Message>, severity: int, priority: int)
    requires SoFar(q, kept, rest, severity, priority) && rest != [] && rest[0].severity >= severity
               && rest[0].priority < priority
    ensures SoFar(q, kept + [rest[0]], rest[1..], severity, priority)
  {
    var r := Obtain(rest[1..], severity, priority).1;
    assert kept + ([rest[0]] + r) == kept + [rest[0]] + r;
  }

  lemma WalkEnds(q: seq<Message>, kept: seq<Message>, rest: seq<Message>, severity: int, priority: int)
    requires SoFar(q, kept, rest, severity, priority)
    ensures rest == [] ==> Obtain(q, severity, priority) == (None, kept)
    ensures rest != [] && Wanted(rest[0], severity, priority) ==>
              Obtain(q, severity, priority) == (Some(rest[0]), kept + rest[1..])
  {
    assert kept + [] == kept;
  }

  // ------------------------------------------------------------------ whole runs

  datatype Call = Submission(m: Message, queueSeverity: int) | Request(severity: int, priority: int)

  /** A queue with its history. */
  datatype History = History(queue: seq<Message>, accepted: seq<Message>, handed: seq<Message>, dropped: seq<Message>)

  function Dropped(q: seq<Message>, severity: int, priority: int): seq<Message>
  {
    if q == [] || (q[0].severity >= severity && q[0].priority >= priority) then []
    else (if q[0].severity < severity then [q[0]] else []) + Dropped(q[1..], severity, priority)
  }

  function Do(h: History, c: Call): History
  {
    match c
    case Submission(m, limit) =>
      h.(queue := Submit(h.queue, m, limit), accepted := if m.severity < limit then h.accepted else h.accepted + [m])
    case Request(severity, priority) =>
      var r := Obtain(h.queue, severity, priority);
      h.(queue := r.1,
         handed := if r.0.Some? then h.handed + [r.0.value] else h.handed,
         dropped := h.dropped + Dropped(h.queue, severity, priority))
  }

  function Run(calls: seq<Call>): History
  {
    if calls == [] then History([], [], [], []) else Do(Run(calls[..|calls| - 1]), calls[|calls| - 1])
  }

  /** s without some of its elements, in the same order */
  predicate Subsequence(s: seq<Message>, t: seq<Message>)
  {
    s == [] || (t != [] && (Subsequence(s, t[1..]) || (s[0] == t[0] && Subsequence(s[1..], t[1..]))))
  }

  lemma {:induction false} SubsequenceSelf(s: seq<Message>)
    ensures Subsequence(s, s)
  {
    if s != [] {
      SubsequenceSelf(s[1..]);
    }
  }

  lemma {:induction false} SubsequenceAppend(s: seq<Message>, t: seq<Message>, m: Message)
    requires Subsequence(s, t)
    ensures Subsequence(s, t + [m]) && Subsequence(s + [m], t + [m])
  {
    assert t != [] ==> (t + [m])[1..] == t[1..] + [m];
    if t == [] {
      assert s + [m] == [m] && t + [m] == [m];
      SubsequenceSelf([m]);
    } else if Subsequence(s, t[1..]) {
      SubsequenceAppend(s, t[1..], m);
    } else {
      assert s != [];
      SubsequenceAppend(s[1..], t[1..], m);
      assert (s + [m])[1..] == s[1..] + [m];
    }
  }

  lemma {:induction false} SubsequenceChain(r: seq<Message>, s: seq<Message>, t: seq<Message>)
    requires Subsequence(r, s) && Subsequence(s, t)
    ensures Subsequence(r, t)
    decreases |t|
  {
    if r != [] {
      if Subsequence(s, t[1..]) {
        SubsequenceChain(r, s, t[1..]);
      } else if Subsequence(r, s[1..]) {
        SubsequenceChain(r, s[1..], t[1..]);
      } else {
        SubsequenceChain(r[1..], s[1..], t[1..]);
      }
    }
  }

  lemma {:induction false} ObtainKeepsOrder(q: seq<Message>, severity: int, priority: int)
    ensures Subsequence(Obtain(q, severity, priority).1, q)
  {
    if q != [] {
      if !Wanted(q[0], severity, priority) {
        ObtainKeepsOrder(q[1..], severity, priority);
        var r := Obtain(q[1..], severity, priority);
        assert ([q[0]] + r.1)[1..] == r.1;
      } else {
        SubsequenceSelf(q[1..]);
      }
    }
  }

  lemma {:induction false} DroppedLow(q: seq<Message>, severity: int, priority: int)
    ensures forall m | m in Dropped(q, severity, priority) :: m.severity < severity
  {
    if q != [] {
      DroppedLow(q[1..], severity, priority);
    }
  }

  lemma {:induction false} ObtainConserves(q: seq<Message>, severity: int, priority: int)
    ensures var r := Obtain(q, severity, priority);
            multiset(q) == multiset(r.1) + multiset(Dropped(q, severity, priority))
                + (if r.0.Some? then multiset{r.0.value} else multiset{})
  {
    if q != [] {
      Counted(q);
      if Wanted(q[0], severity, priority) {
        assert Dropped(q, severity, priority) == [];
      } else {
        ObtainConserves(q[1..], severity, priority);
        if q[0].severity < severity {
          Counted([q[0]] + Dropped(q[1..], severity, priority));
        } else {
          Counted([q[0]] + Obtain(q[1..], severity, priority).1);
        }
      }
    }
  }

  /** The first message and the others */
  lemma Counted(q: seq<Message>)
    requires q != []
    ensures multiset(q) == multiset{q[0]} + multiset(q[1..])
  {
    assert q == [q[0]] + q[1..];
  }

  lemma {:induction false} RunConserves(calls: seq<Call>)
    ensures var h := Run(calls); multiset(h.accepted) == multiset(h.queue) + multiset(h.handed) + multiset(h.dropped)
  {
    hide Dropped; hide Obtain;
    if calls != [] {
      var h, c := Run(calls[..|calls| - 1]), calls[|calls| - 1];
      RunConserves(calls[..|calls| - 1]);
      if c.Request? {
        ObtainConserves(h.queue, c.severity, c.priority);
      }
    }
  }

  lemma {:induction false} RunKeepsOrder(calls: seq<Call>)
    ensures var h := Run(calls); Subsequence(h.queue, h.accepted)
  {
    hide Dropped; hide Obtain; hide Subsequence;
    if calls == [] {
      SubsequenceSelf([]);
    } else {
      var h, c := Run(calls[..|calls| - 1]), calls[|calls| - 1];
      RunKeepsOrder(calls[..|calls| - 1]);
      if c.Request? {
        ObtainKeepsOrder(h.queue, c.severity, c.priority);
        SubsequenceChain(Obtain(h.queue, c.severity, c.priority).1, h.queue, h.accepted);
      } else {
        SubsequenceAppend(h.queue, h.accepted, c.m);
      }
    }
  }

  lemma {:induction false} RunDropsForReason(calls: seq<Call>, m: Message)
    requires m in Run(calls).dropped
    ensures exists c | c in calls :: c.Request? && m.severity < c.severity
  {
    hide Dropped; hide Obtain;
    if calls != [] {
      var before, c := calls[..|calls| - 1], calls[|calls| - 1];
      var h := Run(before);
      if m in h.dropped {
        RunDropsForReason(before, m);
        var d :| d in before && d.Request? && m.severity < d.severity;
        assert d in calls;
      } else {
        DroppedLow(h.queue, c.severity, c.priority);
        assert c in calls;
      }
    }
  }

  /** Over every run of calls: each accepted message is queued, was handed out once, or was
      dropped by a request with a higher severity limit; and the queue keeps the order. */
  lemma NothingLost(calls: seq<Call>)
    ensures var h := Run(calls);
            && multiset(h.accepted) == multiset(h.queue) + multiset(h.handed) + multiset(h.dropped)
            && Subsequence(h.queue, h.accepted)
            && forall m | m in h.dropped :: exists c | c in calls :: c.Request? && m.severity < c.severity
  {
    hide Run; hide Subsequence;
    RunConserves(calls);
    RunKeepsOrder(calls);
    forall m | m in Run(calls).dropped
      ensures exists c | c in calls :: c.Request? && m.severity < c.severity
    {
      RunDropsForReason(calls, m);
    }
  }
}
