/**
 The session manager: the registry of finalized sessions, under the designator of the remote node,
 filled by the handshakes that ran on it.
 */
module Managers {
  import opened Wrappers
  import opened Codecs
  import opened Locators
  import opened Handshakes

  /** A finalized session: the local key, and the remote's key and locator. */
  datatype SessionInfo = SessionInfo(signingKey: SigningKey, remoteKey: VerifyingKey, remoteLocator: NodeLocator)

  type Registry = map<Bytes, SessionInfo>

  /** One handshake from its start, as far as it got, and the end of it that is this manager's. */
  datatype Attempt = Attempt(env: Setting, start: State, steps: seq<Step>, side: Side) {
    /** The local end where the handshake was left. */
    function Local(): End { Run(env, start, steps).Of(side) }

    /** A run that the channel it went over allows. */
    predicate Possible() { IsStart(env, start) && Legal(env, start, steps) }

    predicate Reached(d: Bytes) { Local().Finalized() && Local().progress.msg.location.designator == d }
  }

  /** The session of an end that has sent its start message and accepted the other's. */
  function SessionOf(end: End): SessionInfo
    requires end.Finalized()
  {
    SessionInfo(end.key, end.progress.msg.key, end.progress.msg.location)
  }

  class SessionManager {
    var sessions: Registry

    constructor ()
      ensures sessions == map[]
    {
      sessions := map[];
    }

    function Get(designator: Bytes): Option<SessionInfo>
      reads this
    {
      if designator in sessions then Some(sessions[designator]) else None
    }

    method FinalizeSession(signingKey: SigningKey, remoteKey: VerifyingKey,
        remoteLocator: NodeLocator) returns (session: SessionInfo)
      modifies this
      ensures session == SessionInfo(signingKey, remoteKey, remoteLocator)
      ensures sessions == old(sessions)[remoteLocator.designator := session]
      ensures Get(remoteLocator.designator) == Some(session)
      ensures forall d :: d != remoteLocator.designator ==> Get(d) == old(Get(d))
    {
      session := SessionInfo(signingKey, remoteKey, remoteLocator);
      sessions := sessions[remoteLocator.designator := session];
    }

    /** One handshake after another, on the same manager; the builder finalizes only as its last act. */
    method Handshakes(attempts: seq<Attempt>)
      modifies this
      ensures sessions == RegisterAll(old(sessions), attempts)
    {
      var i := 0;
      while i < |attempts|
        invariant 0 <= i <= |attempts|
        invariant RegisterAll(sessions, attempts[i..]) == RegisterAll(old(sessions), attempts)
      {
        assert attempts[i..][1..] == attempts[i + 1..];
        var end := attempts[i].Local();
        if end.Finalized() {
          var _ := FinalizeSession(end.key, end.progress.msg.key, end.progress.msg.location);
        }
        i := i + 1;
      }
    }
  }

  function Register(sessions: Registry, a: Attempt): Registry {
    if a.Local().Finalized() then sessions[a.Local().progress.msg.location.designator := SessionOf(a.Local())]
    else sessions
  }

  function RegisterAll(sessions: Registry, attempts: seq<Attempt>): Registry
    decreases |attempts|
  {
    if attempts == [] then sessions else RegisterAll(Register(sessions, attempts[0]), attempts[1..])
  }

  /** The last handshake that was finalized with the node named `d`. */
  function Latest(attempts: seq<Attempt>, d: Bytes): (r: Option<nat>)
    ensures match r
            case Some(i) => i < |attempts| && attempts[i].Reached(d)
                && forall j :: i < j < |attempts| ==> !attempts[j].Reached(d)
            case None => forall j :: 0 <= j < |attempts| ==> !attempts[j].Reached(d)
  {
    if attempts == [] then None
    else
      var n := |attempts| - 1;
      if attempts[n].Reached(d) then Some(n) else Latest(attempts[..n], d)
  }

  lemma {:induction false} RegisterLast(sessions: Registry, attempts: seq<Attempt>, a: Attempt)
    ensures RegisterAll(sessions, attempts + [a]) == Register(RegisterAll(sessions, attempts), a)
    decreases |attempts|
  {
    if attempts == [] {
      assert attempts + [a] == [a];
    } else {
      assert (attempts + [a])[1..] == attempts[1..] + [a];
      RegisterLast(Register(sessions, attempts[0]), attempts[1..], a);
    }
  }

  /**
   After any sequence of handshakes from an empty registry, the entry for a designator is the session
   of the latest one finalized with the node of that designator, and there is none if there was none.
   */
  lemma {:induction false} RegistryHoldsLatest(attempts: seq<Attempt>, d: Bytes)
    ensures var after: Registry := RegisterAll(map[], attempts);
            match Latest(attempts, d)
            case Some(i) => d in after && after[d] == SessionOf(attempts[i].Local())
            case None => d !in after
    decreases |attempts|
  {
    if attempts != [] {
      var n := |attempts| - 1;
      RegistryHoldsLatest(attempts[..n], d);
      RegisterLast(map[], attempts[..n], attempts[n]);
      assert attempts == attempts[..n] + [attempts[n]];
    }
  }

  /**
   Over any channels, every entry names the node it is filed under and comes from a finalized handshake,
   which accepted a message of version "1.0" that the remote key signed over the remote location.
   */
  lemma {:induction false} EntriesAreVerified(attempts: seq<Attempt>, d: Bytes)
    requires forall i :: 0 <= i < |attempts| ==> attempts[i].Possible()
    requires d in RegisterAll(map[], attempts)
    ensures var s := RegisterAll(map[], attempts)[d];
            && s.remoteLocator.designator == d
            && exists i, signature ::
              && 0 <= i < |attempts| && attempts[i].Local().Finalized()
              && s.signingKey == attempts[i].start.Of(attempts[i].side).key
              && attempts[i].Local().progress.msg
                 == StartSession("1.0", s.remoteKey, s.remoteLocator, signature)
              && attempts[i].env.scheme.verify(s.remoteKey, s.remoteLocator, signature)
  {
    RegistryHoldsLatest(attempts, d);
    var i := Latest(attempts, d).value;
    var a := attempts[i];
    assert a.Possible();
    FinalizedIsVerified(a.env, a.start, a.steps, a.side);
    RunSameEnds(a.env, a.start, a.steps);
    var m := a.Local().progress.msg;
    assert m == StartSession("1.0", m.key, m.location, m.signature);
  }

  /** Over honest channels the entry holds the key and location of the node that the handshake was with. */
  lemma {:induction false} EntriesAreThePeers(attempts: seq<Attempt>, d: Bytes)
    requires forall i :: 0 <= i < |attempts| ==> attempts[i].Possible() && Sound(attempts[i].env)
    requires d in RegisterAll(map[], attempts)
    ensures var s := RegisterAll(map[], attempts)[d];
            exists i :: 0 <= i < |attempts| &&
              var a := attempts[i];
              var peer := a.start.Of(a.side.Other());
              s == SessionInfo(a.start.Of(a.side).key, a.env.scheme.verifying(peer.key), peer.location)
              && peer.location.designator == d
  {
    RegistryHoldsLatest(attempts, d);
    var i := Latest(attempts, d).value;
    var a := attempts[i];
    assert a.Possible() && Sound(a.env);
    Agreement(a.env, a.start, a.steps, a.side);
    RunSameEnds(a.env, a.start, a.steps);
  }

  /**
   A handshake whose end failed at some point, or has not finalized, leaves the registry as it was,
   wherever it comes in the sequence and however it was continued.
   */
  lemma {:induction false} FailuresLeaveNoTrace(sessions: Registry, before: seq<Attempt>, a: Attempt,
      after: seq<Attempt>, failedAt: nat)
    requires a.Possible() && failedAt <= |a.steps|
    requires Run(a.env, a.start, a.steps[..failedAt]).Of(a.side).progress.Failed? || !a.Local().Finalized()
    ensures RegisterAll(sessions, before + [a] + after) == RegisterAll(sessions, before + after)
    decreases |before|
  {
    if before == [] {
      LegalSplits(a.env, a.start, a.steps, failedAt);
      if Run(a.env, a.start, a.steps[..failedAt]).Of(a.side).progress.Failed? {
        FailureIsFinal(a.env, Run(a.env, a.start, a.steps[..failedAt]), a.steps[failedAt..], a.side);
      }
      assert before + [a] + after == [a] + after;
      assert before + after == after;
    } else {
      assert (before + [a] + after)[1..] == before[1..] + [a] + after;
      assert (before + after)[1..] == before[1..] + after;
      FailuresLeaveNoTrace(Register(sessions, before[0]), before[1..], a, after, failedAt);
    }
  }
}
