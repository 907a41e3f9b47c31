/**
 * The in-memory signalling session store (src/features/signaling.ts).
 *
 * A table maps a six-character session code to the negotiation record of one
 * peer-to-peer session: an optional offer, an optional answer, the ICE
 * candidates published by the host and by the joiner, and the creation time.
 * A record lives for five minutes: reading it after that deletes it (lazy
 * expiry), and a periodic sweep deletes every such record (eager expiry).
 *
 * The clock is the `now` parameter (milliseconds) of every operation, and the
 * random draws of the code generator are given as a sequence of indices.
 */
module Signaling {
  import opened Wrappers

  /** Five minutes, in milliseconds. */
  const SessionTtl: int := 5 * 60 * 1000

  const CodeAlphabet: string := "ABCDEFGHIJKLMNOPQRSTUVWXYZ0123456789"

  const CodeLength: int := 6

  datatype SignalKind = OfferSignal | AnswerSignal | IceSignal

  /** An offer, answer or ICE candidate message; the candidate is kept in serialized form. */
  datatype SignalMessage = SignalMessage(
    kind: SignalKind,
    sdp: Option<string>,
    candidate: Option<string>,
    timestamp: int)

  datatype SessionData = SessionData(
    offer: Option<SignalMessage>,
    answer: Option<SignalMessage>,
    hostIce: seq<SignalMessage>,
    joinerIce: seq<SignalMessage>,
    createdAt: int)

  /** Some of the fields of a record: `None` is a field that is not supplied. */
  datatype SessionPatch = SessionPatch(
    offer: Option<SignalMessage>,
    answer: Option<SignalMessage>,
    hostIce: Option<seq<SignalMessage>>,
    joinerIce: Option<seq<SignalMessage>>,
    createdAt: Option<int>)

  /** A record with no offer, no answer, no candidates, created at `now`. */
  function NewSession(now: int): SessionData {
    SessionData(None, None, [], [], now)
  }

  /** A record has expired once strictly more than the time-to-live has passed since its creation. */
  predicate Expired(d: SessionData, now: int) {
    now - d.createdAt > SessionTtl
  }

  /** The record overwritten with the supplied fields of the patch. */
  function Merge(d: SessionData, patch: SessionPatch): SessionData {
    SessionData(
      if patch.offer.Some? then patch.offer else d.offer,
      if patch.answer.Some? then patch.answer else d.answer,
      if patch.hostIce.Some? then patch.hostIce.value else d.hostIce,
      if patch.joinerIce.Some? then patch.joinerIce.value else d.joinerIce,
      if patch.createdAt.Some? then patch.createdAt.value else d.createdAt)
  }

  /** The record with one more candidate on the host's list or on the joiner's list. */
  function WithCandidate(d: SessionData, candidate: SignalMessage, isHost: bool): SessionData {
    if isHost then d.(hostIce := d.hostIce + [candidate])
    else d.(joinerIce := d.joinerIce + [candidate])
  }

  /** The records of a table that have not expired at `now`: what any read can see. */
  function Live(sessions: map<string, SessionData>, now: int): map<string, SessionData> {
    map code | code in sessions && !Expired(sessions[code], now) :: sessions[code]
  }

  /** A record created at `t0` is readable up to and including `t0 + SessionTtl`, and gone after. */
  lemma FreshSessionLifetime(t0: int, now: int)
    ensures Expired(NewSession(t0), now) <==> now > t0 + SessionTtl
    ensures !Expired(NewSession(t0), t0 + SessionTtl - 1) && !Expired(NewSession(t0), t0 + SessionTtl)
    ensures Expired(NewSession(t0), t0 + SessionTtl + 1)
  {
  }

  /** A patch that supplies nothing leaves a record as it is, and applying a patch twice is applying it once. */
  lemma MergeLaws(d: SessionData, patch: SessionPatch)
    ensures Merge(d, SessionPatch(None, None, None, None, None)) == d
    ensures Merge(Merge(d, patch), patch) == Merge(d, patch)
  {
  }

  /**
   * A sweep at `t1` followed by a sweep at a later `t2` removes exactly what a
   * single sweep at `t2` removes.
   */
  lemma SweepsCompose(sessions: map<string, SessionData>, t1: int, t2: int)
    requires t1 <= t2
    ensures Live(Live(sessions, t1), t2) == Live(sessions, t2)
  {
    var a, b := Live(Live(sessions, t1), t2), Live(sessions, t2);
    assert a.Keys == b.Keys;
  }

  /** A second sweep at the same time changes nothing. */
  lemma SweepIdempotent(sessions: map<string, SessionData>, now: int)
    ensures Live(Live(sessions, now), now) == Live(sessions, now)
  {
    SweepsCompose(sessions, now, now);
  }

  /** Deleting an expired record is invisible to readers. */
  lemma LiveAfterRemovingExpired(sessions: map<string, SessionData>, code: string, now: int)
    requires code in sessions && Expired(sessions[code], now)
    ensures Live(sessions - {code}, now) == Live(sessions, now)
  {
    assert Live(sessions - {code}, now).Keys == Live(sessions, now).Keys;
  }

  /** Storing an unexpired record makes exactly that record visible under its code. */
  lemma LiveAfterStore(sessions: map<string, SessionData>, code: string, d: SessionData, now: int)
    requires !Expired(d, now)
    ensures Live(sessions[code := d], now) == Live(sessions, now)[code := d]
  {
    assert Live(sessions[code := d], now).Keys == Live(sessions, now)[code := d].Keys;
  }

  /** A draw of one index below the alphabet's size per character. */
  predicate ValidPicks(picks: seq<int>) {
    |picks| == CodeLength && forall i :: 0 <= i < |picks| ==> 0 <= picks[i] < |CodeAlphabet|
  }

  /** The code made of the alphabet symbols at the drawn indices. */
  function CodeFrom(picks: seq<int>): string
    requires ValidPicks(picks)
  {
    seq(CodeLength, i requires 0 <= i < CodeLength => CodeAlphabet[picks[i]])
  }

  /** The position of a symbol in the alphabet: letters first, then digits. */
  function SymbolIndex(ch: char): int {
    if 'A' <= ch <= 'Z' then ch as int - 'A' as int else ch as int - '0' as int + 26
  }

  /** The indices a code was drawn with. */
  function PicksOf(code: string): (picks: seq<int>)
    ensures |picks| == |code|
  {
    seq(|code|, i requires 0 <= i < |code| => SymbolIndex(code[i]))
  }

  lemma SymbolIndexOfAlphabet(i: int)
    requires 0 <= i < |CodeAlphabet|
    ensures SymbolIndex(CodeAlphabet[i]) == i
  {
  }

  /** Different draws give different codes: the draw can be read back from the code. */
  lemma PicksOfCode(picks: seq<int>)
    requires ValidPicks(picks)
    ensures PicksOf(CodeFrom(picks)) == picks
  {
    forall i | 0 <= i < CodeLength
      ensures PicksOf(CodeFrom(picks))[i] == picks[i]
    {
      SymbolIndexOfAlphabet(picks[i]);
    }
  }

  /** Every six-character code over the alphabet is the code of exactly one draw. */
  lemma CodeOfPicks(code: string)
    requires |code| == CodeLength && forall i :: 0 <= i < |code| ==> code[i] in CodeAlphabet
    ensures ValidPicks(PicksOf(code)) && CodeFrom(PicksOf(code)) == code
  {
    forall i | 0 <= i < CodeLength
      ensures 0 <= PicksOf(code)[i] < |CodeAlphabet| && CodeAlphabet[PicksOf(code)[i]] == code[i]
    {
      var k :| 0 <= k < |CodeAlphabet| && CodeAlphabet[k] == code[i];
      SymbolIndexOfAlphabet(k);
    }
  }

  /** Builds a session code one character per draw. */
  method GenerateSessionCode(picks: seq<int>) returns (code: string)
    requires ValidPicks(picks)
    ensures |code| == CodeLength
    ensures forall i :: 0 <= i < |code| ==> code[i] in CodeAlphabet
    ensures code == CodeFrom(picks)
  {
    code := "";
    for i := 0 to CodeLength
      invariant |code| == i
      invariant forall k :: 0 <= k < i ==> code[k] == CodeAlphabet[picks[k]]
    {
      code := code + [CodeAlphabet[picks[i]]];
    }
  }

  /** The process-wide table of negotiation records, keyed by session code. */
  class SessionStore {
    var sessions: map<string, SessionData>

    constructor ()
      ensures sessions == map[]
    {
      sessions := map[];
    }

    /** Installs a fresh record under `code`, replacing any record there. */
    method CreateSession(code: string, now: int)
      modifies this
      ensures sessions == old(sessions)[code := NewSession(now)]
      ensures Live(sessions, now) == Live(old(sessions), now)[code := NewSession(now)]
    {
      LiveAfterStore(sessions, code, NewSession(now), now);
      sessions := sessions[code := NewSession(now)];
    }

    /**
     * The record under `code` unless it is absent or expired; an expired
     * record is deleted. What readers see is unchanged either way.
     */
    method GetSession(code: string, now: int) returns (found: Option<SessionData>)
      modifies this
      ensures code !in old(sessions) ==> found == None && sessions == old(sessions)
      ensures code in old(sessions) && Expired(old(sessions)[code], now) ==>
                found == None && sessions == old(sessions) - {code}
      ensures code in old(sessions) && !Expired(old(sessions)[code], now) ==>
                found == Some(old(sessions)[code]) && sessions == old(sessions)
      ensures found == if code in Live(old(sessions), now) then Some(Live(old(sessions), now)[code]) else None
      ensures Live(sessions, now) == Live(old(sessions), now)
      ensures sessions - {code} == old(sessions) - {code}
    {
      if code !in sessions {
        return None;
      }
      var session := sessions[code];
      if Expired(session, now) {
        LiveAfterRemovingExpired(sessions, code, now);
        sessions := sessions - {code};
        return None;
      }
      return Some(session);
    }

    /**
     * Overwrites the supplied fields of the live record under `code`. Fails,
     * storing nothing, when there is no live record.
     */
    method UpdateSession(code: string, patch: SessionPatch, now: int) returns (ok: bool)
      modifies this
      ensures ok <==> code in Live(old(sessions), now)
      ensures ok ==> sessions == old(sessions)[code := Merge(old(sessions)[code], patch)]
      ensures !ok ==> sessions == old(sessions) - {code}
      ensures sessions - {code} == old(sessions) - {code}
    {
      var found := GetSession(code, now);
      if found.None? {
        return false;
      }
      sessions := sessions[code := Merge(found.value, patch)];
      return true;
    }

    /**
     * Appends one candidate to the host's or the joiner's list of the live
     * record under `code`. Fails, storing nothing, when there is no live record.
     */
    method AddIceCandidate(code: string, candidate: SignalMessage, isHost: bool, now: int) returns (ok: bool)
      modifies this
      ensures ok <==> code in Live(old(sessions), now)
      ensures ok ==> sessions == old(sessions)[code := WithCandidate(old(sessions)[code], candidate, isHost)]
      ensures !ok ==> sessions == old(sessions) - {code}
      ensures sessions - {code} == old(sessions) - {code}
      ensures Live(sessions, now) ==
                if ok then Live(old(sessions), now)[code := WithCandidate(old(sessions)[code], candidate, isHost)]
                else Live(old(sessions), now)
    {
      var found := GetSession(code, now);
      if found.None? {
        return false;
      }
      var session := WithCandidate(found.value, candidate, isHost);
      LiveAfterStore(sessions, code, session, now);
      sessions := sessions[code := session];
      return true;
    }

    /** Deletes every expired record and keeps every other record as it is. */
    method CleanupOldSessions(now: int)
      modifies this
      ensures sessions == Live(old(sessions), now)
    {
      var pending := sessions.Keys;
      while pending != {}
        invariant pending <= old(sessions).Keys
        invariant sessions.Keys <= old(sessions).Keys
        invariant forall code :: code in sessions ==> sessions[code] == old(sessions)[code]
        invariant forall code :: code in old(sessions) ==>
                    (code in sessions <==> code in pending || !Expired(old(sessions)[code], now))
        decreases pending
      {
        var code :| code in pending;
        if Expired(sessions[code], now) {
          sessions := sessions - {code};
        }
        pending := pending - {code};
      }
      assert sessions.Keys == Live(old(sessions), now).Keys;
    }
  }
}
