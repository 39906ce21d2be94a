/** The observer that turns Eloquent model events into audits.

    Every handler hands the model, tagged with an audit event name, to the
    auditor, except `restoring`, which only raises the shared restoring flag,
    and `updated`, which is skipped while that flag is up: restoring a soft
    deleted model also fires `updated`, and that update must not be audited a
    second time. `restored` audits and lowers the flag again.

    The auditor is modelled as the log of the (model, event name) pairs it was
    asked to execute, in order. */
module Observer {

  /** An audited Eloquent model, known here only by its identity. */
  type ModelId = nat

  /** The model events the observer listens to. */
  datatype Handler = Retrieved | Created | Updated | Deleted | Restoring | Restored

  /** One call of a handler with the model that fired the event. */
  datatype Call = Call(handler: Handler, model: ModelId)

  /** `Auditor::execute($model->setAuditEvent($event))`: one audit of `model`
      for the event `event`. */
  datatype Execution = Execution(model: ModelId, event: string)

  /** The observer's static flag and the auditor's log. */
  datatype ObserverState = ObserverState(restoring: bool, log: seq<Execution>)

  /** The audit event name a handler sets on the model. */
  function EventName(h: Handler): string {
    match h
    case Retrieved => "retrieved"
    case Created => "created"
    case Updated => "updated"
    case Deleted => "deleted"
    case Restoring => "restoring"
    case Restored => "restored"
  }

  /** One handler call: its effect on the flag and on the log. */
  function Step(s: ObserverState, c: Call): ObserverState {
    match c.handler
    case Restoring => ObserverState(true, s.log)
    case Restored => ObserverState(false, s.log + [Execution(c.model, "restored")])
    case Updated => if s.restoring then s else ObserverState(s.restoring, s.log + [Execution(c.model, "updated")])
    case _ => ObserverState(s.restoring, s.log + [Execution(c.model, EventName(c.handler))])
  }

  /** The calls of `cs`, one after the other. */
  function Run(s: ObserverState, cs: seq<Call>): ObserverState
    decreases |cs|
  {
    if cs == [] then s else Run(Step(s, cs[0]), cs[1..])
  }

  // ---------------------------------------------------------------------------
  // A reference description of the log, written without the step function

  /** Whether the flag is up just before call `i` of `cs`, starting from `init`:
      a `restoring` came earlier with no `restored` since, or the flag was up at
      the start and no `restored` came at all. */
  predicate FlagBefore(init: bool, cs: seq<Call>, i: nat)
    requires i <= |cs|
  {
    || (exists j | 0 <= j < i :: cs[j].handler == Restoring && ClearedNowhere(cs, j + 1, i))
    || (init && ClearedNowhere(cs, 0, i))
  }

  /** No `restored` among the calls at positions `from` up to `to`. */
  predicate ClearedNowhere(cs: seq<Call>, from: nat, to: nat)
    requires from <= to <= |cs|
  {
    forall k | from <= k < to :: cs[k].handler != Restored
  }

  /** Whether call `i` is audited: every call but `restoring` is, except an
      `updated` that comes while the flag is up. */
  predicate Audited(init: bool, cs: seq<Call>, i: nat)
    requires i < |cs|
  {
    cs[i].handler != Restoring && (cs[i].handler == Updated ==> !FlagBefore(init, cs, i))
  }

  /** The audits issued by the first `n` calls of `cs`, in call order. */
  function Expected(init: bool, cs: seq<Call>, n: nat): (r: seq<Execution>)
    requires n <= |cs|
    ensures |r| <= n
  {
    if n == 0 then []
    else
      var c := cs[n - 1];
      Expected(init, cs, n - 1) + if Audited(init, cs, n - 1) then [Execution(c.model, EventName(c.handler))] else []
  }

  // ---------------------------------------------------------------------------
  // Properties of a sequence of calls

  /** The flag just before the next call: what call `n` sees is decided by the
      state after the first `n` calls. */
  lemma FlagBeforeNext(init: bool, cs: seq<Call>, n: nat)
    requires n < |cs|
    ensures FlagBefore(init, cs, n + 1) <==>
      if cs[n].handler == Restoring then true
      else if cs[n].handler == Restored then false
      else FlagBefore(init, cs, n)
  {
    if cs[n].handler == Restoring {
      assert ClearedNowhere(cs, n + 1, n + 1);
    } else if cs[n].handler == Restored {
      var to := n + 1;
      forall j | 0 <= j <= n
        ensures !ClearedNowhere(cs, j, to)
      {
        assert cs[n].handler == Restored;
      }
    } else {
      if FlagBefore(init, cs, n) {
        if exists j | 0 <= j < n :: cs[j].handler == Restoring && ClearedNowhere(cs, j + 1, n) {
          var j :| 0 <= j < n && cs[j].handler == Restoring && ClearedNowhere(cs, j + 1, n);
          assert ClearedNowhere(cs, j + 1, n + 1);
        } else {
          assert ClearedNowhere(cs, 0, n + 1);
        }
      }
      if FlagBefore(init, cs, n + 1) {
        if exists j | 0 <= j < n + 1 :: cs[j].handler == Restoring && ClearedNowhere(cs, j + 1, n + 1) {
          var j :| 0 <= j < n + 1 && cs[j].handler == Restoring && ClearedNowhere(cs, j + 1, n + 1);
          assert j < n;
          assert ClearedNowhere(cs, j + 1, n);
        } else {
          assert ClearedNowhere(cs, 0, n);
        }
      }
    }
  }

  /** Running the first `n` calls raises the flag exactly as `FlagBefore`
      describes and appends exactly the audits `Expected` lists. */
  lemma {:induction false} RunPrefix(s: ObserverState, cs: seq<Call>, n: nat)
    requires n <= |cs|
    ensures Run(s, cs[..n]) == ObserverState(FlagBefore(s.restoring, cs, n), s.log + Expected(s.restoring, cs, n))
  {
    if n == 0 {
      assert ClearedNowhere(cs, 0, 0);
    } else {
      RunPrefix(s, cs, n - 1);
      RunSnoc(s, cs[..n - 1], cs[n - 1]);
      assert cs[..n] == cs[..n - 1] + [cs[n - 1]];
      FlagBeforeNext(s.restoring, cs, n - 1);
    }
  }

  lemma {:induction false} RunSnoc(s: ObserverState, cs: seq<Call>, c: Call)
    ensures Run(s, cs + [c]) == Step(Run(s, cs), c)
    decreases |cs|
  {
    if cs == [] {
      assert [c][1..] == [];
    } else {
      assert (cs + [c])[1..] == cs[1..] + [c];
      RunSnoc(Step(s, cs[0]), cs[1..], c);
    }
  }

  /** The whole run: the log grows by exactly the expected audits, and the flag
      ends as the last `restoring` or `restored` left it. */
  lemma RunLog(s: ObserverState, cs: seq<Call>)
    ensures Run(s, cs).log == s.log + Expected(s.restoring, cs, |cs|)
    ensures Run(s, cs).restoring == FlagBefore(s.restoring, cs, |cs|)
  {
    RunPrefix(s, cs, |cs|);
    assert cs[..|cs|] == cs;
  }

  /** `restoring; updated; restored` on one model yields exactly one audit,
      `restored`, and leaves the flag down, whatever it was before. */
  lemma RestoreCycle(s: ObserverState, m: ModelId)
    ensures Run(s, [Call(Restoring, m), Call(Updated, m), Call(Restored, m)])
      == ObserverState(false, s.log + [Execution(m, "restored")])
  {
    var cs := [Call(Restoring, m), Call(Updated, m), Call(Restored, m)];
    var s1 := Step(s, Call(Restoring, m));
    assert s1.restoring && s1.log == s.log;
    assert cs[1..] == [Call(Updated, m), Call(Restored, m)];
    assert Run(s, cs) == Run(s1, cs[1..]);
    assert Step(s1, Call(Updated, m)) == s1;
    assert cs[1..][1..] == [Call(Restored, m)];
    assert Run(s1, cs[1..]) == Run(s1, [Call(Restored, m)]);
    assert [Call(Restored, m)][1..] == [];
  }

  /** Once the flag is up, calls that contain no `restored` never audit an
      update, and the flag stays up: only `restored` lowers it. */
  lemma {:induction false} SuppressedUntilRestored(s: ObserverState, cs: seq<Call>)
    requires s.restoring
    requires forall i | 0 <= i < |cs| :: cs[i].handler != Restored
    ensures Run(s, cs).restoring
    ensures |Run(s, cs).log| >= |s.log| && Run(s, cs).log[..|s.log|] == s.log
    ensures forall e | e in Run(s, cs).log[|s.log|..] :: e.event != "updated"
    decreases |cs|
  {
    if cs != [] {
      var s' := Step(s, cs[0]);
      assert s'.restoring;
      assert forall e | e in s'.log[|s.log|..] :: e.event != "updated";
      SuppressedUntilRestored(s', cs[1..]);
      var t := Run(s', cs[1..]);
      assert t.log[..|s.log|] == t.log[..|s'.log|][..|s.log|];
      forall e | e in t.log[|s.log|..]
        ensures e.event != "updated"
      {
        var k :| |s.log| <= k < |t.log| && t.log[k] == e;
        if k < |s'.log| {
          assert e == s'.log[|s.log|..][k - |s.log|];
        } else {
          assert e == t.log[|s'.log|..][k - |s'.log|];
        }
      }
    }
  }

  /** `retrieved`, `created`, `deleted` and `restored` audit exactly once with
      their own event name, with the flag up or down. */
  lemma AlwaysAudited(s: ObserverState, c: Call)
    requires c.handler in {Retrieved, Created, Deleted, Restored}
    ensures Step(s, c).log == s.log + [Execution(c.model, EventName(c.handler))]
  {
  }

  /** `updated` audits exactly when the flag is down, and never changes it. */
  lemma UpdatedAuditedIffNotRestoring(s: ObserverState, m: ModelId)
    ensures Step(s, Call(Updated, m)).restoring == s.restoring
    ensures Step(s, Call(Updated, m)).log == if s.restoring then s.log else s.log + [Execution(m, "updated")]
  {
  }

  // ---------------------------------------------------------------------------
  // The observer itself

  /** The observer. `restoring` is the class's static flag, shared by every
      model it observes; `executed` is what the auditor has been asked to do. */
  class AuditableObserver {
    var restoring: bool
    var executed: seq<Execution>

    function Current(): ObserverState
      reads this
    {
      ObserverState(restoring, executed)
    }

    constructor ()
      ensures !restoring && executed == []
    {
      restoring := false;
      executed := [];
    }

    method Retrieved(model: ModelId)
      modifies this
      ensures restoring == old(restoring)
      ensures executed == old(executed) + [Execution(model, "retrieved")]
      ensures Current() == Step(old(Current()), Call(Handler.Retrieved, model))
    {
      executed := executed + [Execution(model, "retrieved")];
    }

    method Created(model: ModelId)
      modifies this
      ensures restoring == old(restoring)
      ensures executed == old(executed) + [Execution(model, "created")]
      ensures Current() == Step(old(Current()), Call(Handler.Created, model))
    {
      executed := executed + [Execution(model, "created")];
    }

    /** Skipped while a restore is in flight. */
    method Updated(model: ModelId)
      modifies this
      ensures restoring == old(restoring)
      ensures old(restoring) ==> executed == old(executed)
      ensures !old(restoring) ==> executed == old(executed) + [Execution(model, "updated")]
      ensures Current() == Step(old(Current()), Call(Handler.Updated, model))
    {
      if !restoring {
        executed := executed + [Execution(model, "updated")];
      }
    }

    method Deleted(model: ModelId)
      modifies this
      ensures restoring == old(restoring)
      ensures executed == old(executed) + [Execution(model, "deleted")]
      ensures Current() == Step(old(Current()), Call(Handler.Deleted, model))
    {
      executed := executed + [Execution(model, "deleted")];
    }

    /** Raises the flag and audits nothing. */
    method Restoring(model: ModelId)
      modifies this
      ensures restoring
      ensures executed == old(executed)
      ensures Current() == Step(old(Current()), Call(Handler.Restoring, model))
    {
      restoring := true;
    }

    /** Audits while the flag is still up, then lowers it. */
    method Restored(model: ModelId)
      modifies this
      ensures !restoring
      ensures executed == old(executed) + [Execution(model, "restored")]
      ensures Current() == Step(old(Current()), Call(Handler.Restored, model))
    {
      executed := executed + [Execution(model, "restored")];
      restoring := false;
    }
  }
}
