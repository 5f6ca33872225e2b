/** The daemon's sessions and the requests on them (`handle` and `handle_session_request` in
    `daemon/engine.rs`). */
module Engines {
  import opened Wrappers
  import opened InputTables
  import opened Segments
  import opened Composing
  import opened SessionValues
  import opened Sessions

  type SessionId = string

  /** `style` and `goodSurrounding` say whether the parts of the request could be read. */
  datatype Request =
    | StartSession(style: Option<InputStyle>, goodSurrounding: bool)
    | EndSession
    | ResetSession
    | PressKey(event: KeyEvent, goodSurrounding: bool)
    | ChooseCandidate(index: nat)
    | ChooseTypoCorrection(index: nat)
    | ForgetLearned(index: nat)
    | ResetAllLearning
    | TurnPage(pageSize: nat, direction: PageDirection)
    | CommitAll
    | RequestTypoCorrections
    | ResponseSentAsRequest
    | MissingPayload

  datatype Reply =
    | Shown(state: StateResponse)
    | TypoCorrections(candidates: seq<TypoCandidate>)
    | Failure(code: ErrorCode)

  datatype Call = Call(requestId: nat, id: SessionId, request: Request, env: Environment)

  const FRESH_STATE := StateResponse(false, [], [], -1, [], true, NoInput)

  predicate GoodRequest(request: Request) {
    request.PressKey? ==>
      && (request.event.number.Some? ==> request.event.number.value < 10 && request.event.text != [])
      && (request.event.action.Represent? ==> request.event.action.index < FORM_COUNT)
  }

  /** Everything a session remembers, and what it shows. */
  datatype Snapshot = Snapshot(preedit: seq<Grapheme>, composing: Text, mode: InputMode, language: Language, lastRequestId: nat, selected: nat,
                               display: seq<Candidate>, remainders: seq<seq<Grapheme>>, annotations: seq<bool>,
                               preview: Option<nat>, additional: nat, segment: Option<nat>, lastWasBackspace: bool,
                               prediction: Option<Prediction>, correction: Option<(seq<Grapheme>, seq<Grapheme>)>,
                               live: Option<Candidate>, typoCandidates: seq<TypoCandidate>, unicodeDigits: seq<char>)

  ghost function SnapshotOf(s: Session): (r: Snapshot)
    reads s
    ensures r.lastRequestId == s.lastRequestId
  {
    Snapshot(s.Preedit(), s.composing, s.mode, s.language, s.lastRequestId, s.selected, s.display, s.remainders, s.annotations, s.preview,
             s.additional, s.segment, s.lastWasBackspace, s.prediction, s.correction, s.live, s.typoCandidates, s.unicodeDigits)
  }

  function MomentOf(s: Snapshot): Moment {
    Moment(s.composing, s.mode, s.language, s.selected, s.display, s.additional, s.prediction, s.correction)
  }

  // ----- what a request keeps -----

  type Snapshots = map<SessionId, Snapshot>

  /** A request with a new number, for a session that is there. */
  predicate Accepted(before: Snapshots, call: Call) {
    && call.id in before && call.requestId > before[call.id].lastRequestId
    && !call.request.StartSession? && !call.request.MissingPayload? && !call.request.ResponseSentAsRequest?
  }

  /** No other session changes. */
  ghost predicate OthersKept(before: Snapshots, id: SessionId, after: Snapshots) {
    forall other :: other != id ==>
      (other in before <==> other in after) && (other in before ==> after[other] == before[other])
  }

  /** A number that is not new changes nothing, and a session only changes to a larger number. */
  predicate NumberKept(before: Snapshots, call: Call, reply: Reply, after: Snapshots) {
    && (call.id in before && call.requestId <= before[call.id].lastRequestId ==> reply.Failure? && after == before)
    && (call.id !in before && !call.request.StartSession? ==> reply.Failure? && after == before)
    && (call.id in after ==>
          || (after[call.id].lastRequestId == call.requestId && (call.id in before ==> before[call.id].lastRequestId < call.requestId))
          || (reply.Failure? && after == before))
    && (Accepted(before, call) ==> (call.id in after <==> !call.request.EndSession?))
  }

  /** What the keys do that erase, go back and move through the candidates. */
  predicate KeyKept(before: Snapshot, event: KeyEvent, reply: StateResponse, after: Snapshot) {
    && (event.action == UserAction.Backspace && IsActive(before.mode) && before.composing.surface != [] ==>
          reply.commit == [] && after.composing.surface == before.composing.surface[..|before.composing.surface| - 1])
    && (event.action == UserAction.Escape && IsActive(before.mode) ==>
          reply.commit == [] && after.composing == if before.mode == InputMode.Composing then EMPTY_TEXT else before.composing)
    && (ReachesAction(event, MomentOf(before)) ==>
          && DownUpMean(event, MomentOf(before), reply.commit, MomentOf(after))
          && IdleMeans(event, MomentOf(before), reply, MomentOf(after)))
  }

  /** A page without size is refused, and so is one without direction if there is a list; otherwise
      the selection goes a page back or forward within the list. */
  predicate PageKept(before: Snapshot, pageSize: nat, direction: PageDirection, reply: Reply, after: Snapshot) {
    && (reply.Failure? <==> pageSize == 0 || (before.display != [] && direction == UnknownPage))
    && after.composing == before.composing && after.display == before.display && after.mode == before.mode
    && (reply.Shown? && before.display != [] ==>
          && (direction == NextPage ==>
                after.selected == if before.selected + pageSize < |before.display| then before.selected + pageSize else |before.display| - 1)
          && (direction == PreviousPage ==>
                after.selected == if before.selected >= pageSize then before.selected - pageSize else 0))
  }

  /** While nothing fails that a session asks for, exactly these requests are refused. */
  ghost predicate RefusedExactly(before: Snapshot, request: Request, env: Environment, reply: Reply) {
    Dependable(env) ==>
      match request
      case PressKey(event, goodSurrounding) => reply.Failure? <==> !goodSurrounding || Refused(event, MomentOf(before))
      case ChooseCandidate(index) => reply.Failure? <==> index >= |before.display|
      case ChooseTypoCorrection(index) => reply.Failure? <==> index >= |before.typoCandidates|
      case ForgetLearned(index) => reply.Failure? <==> index >= |before.display|
      case ResetAllLearning => !reply.Failure?
      case CommitAll => !reply.Failure?
      case ResetSession => !reply.Failure?
      case _ => true
  }

  /** What is committed and what is left are together what was shown; a failure starts over. */
  predicate TextKept(before: Snapshot, request: Request, reply: Reply, after: Snapshot) {
    && (reply.Failure? && !request.TurnPage? ==> after.mode == NoInput && after.composing == EMPTY_TEXT)
    && (request == CommitAll && before.mode != UnicodeInput ==>
          reply.Shown? && reply.state.commit == before.preedit && after.composing == EMPTY_TEXT)
    && (request.ChooseCandidate? && reply.Shown? ==>
          && request.index < |before.display| && request.index < |before.remainders|
          && reply.state.commit == before.display[request.index].text
          && after.composing.surface == before.remainders[request.index])
    && (request.PressKey? && reply.Shown? && Takes(request.event, before.mode)
        && (before.mode == InputMode.Composing || before.mode == Previewing || before.mode == Selecting) ==>
          reply.state.commit + after.composing.surface == before.preedit)
    && (request.PressKey? && reply.Shown? ==> KeyKept(before, request.event, reply.state, after))
    && (request.ChooseTypoCorrection? && reply.Shown? ==>
          && request.index < |before.typoCandidates|
          && reply.state.commit == before.typoCandidates[request.index].converted)
    && (request == ResetSession ==> reply == Shown(FRESH_STATE) && after.mode == NoInput && after.composing == EMPTY_TEXT && after.display == [])
    && (request.TurnPage? ==> PageKept(before, request.pageSize, request.direction, reply, after))
    && (request == RequestTypoCorrections && !reply.Failure? ==>
          reply == TypoCorrections(after.typoCandidates) && after.composing == before.composing)
  }

  /** Everything one request keeps. */
  ghost predicate Kept(before: Snapshots, call: Call, reply: Reply, after: Snapshots) {
    && OthersKept(before, call.id, after)
    && NumberKept(before, call, reply, after)
    && (Accepted(before, call) && call.id in after ==>
          && TextKept(before[call.id], call.request, reply, after[call.id])
          && RefusedExactly(before[call.id], call.request, call.env, reply))
  }

  lemma {:induction false} RefusedIsKept(before: Snapshots, call: Call, reply: Reply)
    requires reply.Failure? && !Accepted(before, call)
    ensures Kept(before, call, reply, before)
  {
  }

  lemma {:induction false} StartedIsKept(before: Snapshots, call: Call, reply: Reply, now: Snapshot)
    requires call.request.StartSession? && (call.id in before ==> before[call.id].lastRequestId < call.requestId)
    requires now.lastRequestId == call.requestId
    ensures Kept(before, call, reply, before[call.id := now])
  {
  }

  lemma {:induction false} EndedIsKept(before: Snapshots, call: Call, reply: Reply)
    requires Accepted(before, call) && call.request.EndSession?
    ensures Kept(before, call, reply, before - {call.id})
  {
  }

  lemma {:induction false} ServedIsKept(before: Snapshots, call: Call, reply: Reply, now: Snapshot)
    requires Accepted(before, call) && !call.request.EndSession? && now.lastRequestId == call.requestId
    requires TextKept(before[call.id], call.request, reply, now) && RefusedExactly(before[call.id], call.request, call.env, reply)
    ensures Kept(before, call, reply, before[call.id := now])
  {
    hide TextKept, RefusedExactly;
  }

  /** What all sessions remember before and after each of a sequence of requests. */
  ghost predicate IsHistory(calls: seq<Call>, replies: seq<Reply>, history: seq<Snapshots>) {
    && |replies| == |calls| && |history| == |calls| + 1
    && forall i :: 0 <= i < |calls| ==> Kept(history[i], calls[i], replies[i], history[i + 1])
  }

  /** Over any sequence of requests a session without a request of its own stays as it is. */
  lemma {:induction false} UnaddressedStays(calls: seq<Call>, replies: seq<Reply>, history: seq<Snapshots>, id: SessionId, i: nat, j: nat)
    requires IsHistory(calls, replies, history) && i <= j < |history|
    requires forall k :: i <= k < j ==> calls[k].id != id
    ensures id in history[i] <==> id in history[j]
    ensures id in history[i] ==> history[j][id] == history[i][id]
    decreases j - i
  {
    hide NumberKept, TextKept, RefusedExactly;
    if i < j {
      assert Kept(history[i], calls[i], replies[i], history[i + 1]);
      UnaddressedStays(calls, replies, history, id, i + 1, j);
    }
  }

  /** The number of a session that goes on never shrinks, and it grows if anything changes. */
  lemma {:induction false} NumbersGrow(calls: seq<Call>, replies: seq<Reply>, history: seq<Snapshots>, id: SessionId, i: nat, j: nat)
    requires IsHistory(calls, replies, history) && i <= j < |history|
    requires forall k :: i <= k <= j ==> id in history[k]
    ensures history[i][id].lastRequestId <= history[j][id].lastRequestId
    ensures history[i][id].lastRequestId == history[j][id].lastRequestId ==> history[j][id] == history[i][id]
    decreases j - i
  {
    hide TextKept, RefusedExactly;
    if i < j {
      assert Kept(history[i], calls[i], replies[i], history[i + 1]);
      NumbersGrow(calls, replies, history, id, i + 1, j);
    }
  }

  class Engine {
    const registry: Registry
    const behaviour: Behaviour
    var sessions: map<SessionId, Session>

    ghost predicate Valid()
      reads this, sessions.Values
    {
      && GoodRegistry(registry)
      && (forall id :: id in sessions ==> sessions[id].Valid() && sessions[id].registry == registry)
      && (forall a, b :: a in sessions && b in sessions && a != b ==> sessions[a] != sessions[b])
    }

    /** What all sessions remember. */
    ghost function AllSnapshots(): (r: Snapshots)
      reads this, sessions.Values
      ensures r.Keys == sessions.Keys
    {
      map id | id in sessions :: SnapshotOf(sessions[id])
    }

    constructor (registry: Registry, behaviour: Behaviour)
      requires GoodRegistry(registry)
      ensures Valid() && sessions == map[]
    {
      this.registry := registry;
      this.behaviour := behaviour;
      sessions := map[];
    }

    /** A request on a live session with a new number. Whatever goes wrong, the session ends up
        in a valid state: a failed request resets it. */
    method Serve(session: Session, request: Request, env: Environment) returns (reply: Reply)
      requires session.Valid() && WellBehaved(session.registry, env) && GoodRequest(request)
      requires !request.StartSession? && !request.EndSession? && !request.MissingPayload? && !request.ResponseSentAsRequest?
      modifies session
      ensures session.Valid() && session.lastRequestId == old(session.lastRequestId)
      ensures TextKept(old(SnapshotOf(session)), request, reply, SnapshotOf(session))
      ensures RefusedExactly(old(SnapshotOf(session)), request, env, reply)
    {
      hide GoodRegistry, InStep, WindowFits, PredictionFits, WellBehaved, Session.Preedit, Session.ListedCandidates,
           Takes, KeyKept, Dependable;
      if request.TurnPage? || request == CommitAll || request == ResetSession || request == RequestTypoCorrections {
        reply := ServeAtOnce(session, request, env);
        return;
      }
      var result := Act(session, request, env);
      if result.Err? {
        session.Reset();
        return Failure(result.error);
      }
      reply := Shown(result.value);
    }

    method Turn(session: Session, pageSize: nat, direction: PageDirection) returns (reply: Reply)
      requires session.Valid()
      modifies session
      ensures session.Valid() && session.lastRequestId == old(session.lastRequestId)
      ensures PageKept(old(SnapshotOf(session)), pageSize, direction, reply, SnapshotOf(session)) && !reply.TypoCorrections?
    {
      hide GoodRegistry, InStep, WindowFits, PredictionFits, Session.Preedit, Session.ListedCandidates;
      var ok := session.PageCandidates(pageSize, direction);
      if !ok {
        return Failure(InvalidPayload);
      }
      session.StopShowingLive();
      reply := Shown(session.State(true, [], false));
    }

    /** The requests that look at no candidate. */
    method ServeAtOnce(session: Session, request: Request, env: Environment) returns (reply: Reply)
      requires session.Valid()
      requires request.TurnPage? || request == CommitAll || request == ResetSession || request == RequestTypoCorrections
      modifies session
      ensures session.Valid() && session.lastRequestId == old(session.lastRequestId)
      ensures TextKept(old(SnapshotOf(session)), request, reply, SnapshotOf(session))
      ensures RefusedExactly(old(SnapshotOf(session)), request, env, reply)
    {
      hide GoodRegistry, InStep, WindowFits, PredictionFits, Session.Preedit, Session.ListedCandidates, Takes,
           KeyKept, Dependable, PageKept;
      match request {
        case TurnPage(pageSize, direction) =>
          reply := Turn(session, pageSize, direction);
        case CommitAll =>
          var state := session.CommitComposition();
          reply := Shown(state);
        case ResetSession =>
          session.Reset();
          reply := Shown(FRESH_STATE);
        case RequestTypoCorrections =>
          var answer := if session.behaviour.typoCorrection then env.typo(session.composing) else Err(InvalidPayload);
          if answer.Err? {
            session.Reset();
            return Failure(answer.error);
          }
          session.KeepTypoCandidates(answer.value);
          reply := TypoCorrections(answer.value);
      }
    }

    /** A key, with the text around the cursor. */
    method Press(session: Session, event: KeyEvent, goodSurrounding: bool, env: Environment) returns (r: Result<StateResponse, ErrorCode>)
      requires session.Valid() && WellBehaved(session.registry, env) && GoodRequest(PressKey(event, goodSurrounding))
      modifies session
      ensures session.lastRequestId == old(session.lastRequestId)
      ensures r.Ok? ==> session.Valid()
      ensures r.Ok? && old(session.Active()) && Takes(event, old(session.mode)) ==>
                r.value.commit + session.composing.surface == old(session.Preedit())
      ensures r.Ok? ==> KeyKept(old(SnapshotOf(session)), event, r.value, SnapshotOf(session))
      ensures !goodSurrounding || Refused(event, MomentOf(old(SnapshotOf(session)))) ==> r == Err(InvalidPayload)
      ensures Dependable(env) && r.Err? ==> !goodSurrounding || Refused(event, MomentOf(old(SnapshotOf(session))))
    {
      hide GoodRegistry, InStep, WindowFits, PredictionFits, WellBehaved, Session.Preedit, Takes, Refused,
           ReachesAction, DownUpMean, IdleMeans, SpaceMeans, TypingMeans, Dependable;
      if !goodSurrounding {
        return Err(InvalidPayload);
      }
      r := session.HandleKey(event, env);
    }

    /** The requests whose failure resets the session. */
    method Act(session: Session, request: Request, env: Environment) returns (r: Result<StateResponse, ErrorCode>)
      requires session.Valid() && WellBehaved(session.registry, env) && GoodRequest(request)
      modifies session
      ensures session.lastRequestId == old(session.lastRequestId)
      ensures r.Ok? ==> session.Valid()
      ensures request.ChooseCandidate? && r.Ok? ==>
                && request.index < old(|session.display|)
                && r.value.commit == old(session.display)[request.index].text
                && session.composing.surface == old(session.remainders)[request.index]
      ensures request.PressKey? && r.Ok? && old(session.Active()) && Takes(request.event, old(session.mode)) ==>
                r.value.commit + session.composing.surface == old(session.Preedit())
      ensures request.ChooseTypoCorrection? && r.Ok? ==>
                && request.index < old(|session.typoCandidates|)
                && r.value.commit == old(session.typoCandidates)[request.index].converted
      ensures request.PressKey? && r.Ok? ==> KeyKept(old(SnapshotOf(session)), request.event, r.value, SnapshotOf(session))
      ensures request.PressKey? && !request.goodSurrounding ==> r == Err(InvalidPayload)
      ensures (request.PressKey? || request.ChooseCandidate? || request.ChooseTypoCorrection? || request.ForgetLearned? || request.ResetAllLearning?) ==>
                RefusedExactly(old(SnapshotOf(session)), request, env, if r.Ok? then Shown(r.value) else Failure(r.error))
    {
      hide GoodRegistry, InStep, WindowFits, PredictionFits, WellBehaved, KeyKept, Refused, Takes, Session.Preedit;
      match request {
        case PressKey(event, goodSurrounding) => r := Press(session, event, goodSurrounding, env);
        case ChooseCandidate(index) => r := session.SelectCandidate(index, Previewing, env);
        case ChooseTypoCorrection(index) => r := session.SelectTypoCorrection(index);
        case ForgetLearned(index) => r := session.ForgetCandidate(index, env);
        case ResetAllLearning => r := session.ResetLearning(env);
        case _ => r := Err(InvalidPayload);
      }
    }

    /** After any request every session is valid; a request number that is not new changes
        nothing; an accepted one becomes the session's number; and no other session is touched. */
    method Handle(requestId: nat, id: SessionId, request: Request, env: Environment) returns (reply: Reply)
      requires Valid() && WellBehaved(registry, env) && GoodRequest(request)
      modifies this, sessions.Values
      ensures Valid()
      ensures Kept(old(AllSnapshots()), Call(requestId, id, request, env), reply, AllSnapshots())
      ensures forall other :: other in sessions && other != id ==> other in old(sessions) && sessions[other] == old(sessions)[other]
      ensures fresh(sessions.Values - old(sessions.Values))
    {
      hide GoodRegistry, InStep, WellBehaved, Session.Valid, Kept, TextKept, RefusedExactly, SnapshotOf;
      ghost var before, call := AllSnapshots(), Call(requestId, id, request, env);
      if request.MissingPayload? || request.ResponseSentAsRequest? {
        reply := Failure(InvalidPayload);
        RefusedIsKept(before, call, reply);
        return;
      }
      if request.StartSession? {
        reply := Start(requestId, id, request.style, request.goodSurrounding && !env.resetFails);
        if reply.Failure? {
          RefusedIsKept(before, call, reply);
        } else {
          StartedIsKept(before, call, reply, SnapshotOf(sessions[id]));
        }
        return;
      }
      if id !in sessions {
        reply := Failure(UnknownSession);
        RefusedIsKept(before, call, reply);
        return;
      }
      reply := HandleSession(requestId, id, request, env);
    }

    /** A request on a session that is there. */
    method HandleSession(requestId: nat, id: SessionId, request: Request, env: Environment) returns (reply: Reply)
      requires Valid() && WellBehaved(registry, env) && GoodRequest(request) && id in sessions
      requires !request.StartSession? && !request.MissingPayload? && !request.ResponseSentAsRequest?
      modifies this, sessions[id]
      ensures Valid()
      ensures Kept(old(AllSnapshots()), Call(requestId, id, request, env), reply, AllSnapshots())
      ensures sessions == old(sessions) || sessions == old(sessions) - {id}
    {
      hide GoodRegistry, InStep, WellBehaved, Session.Valid, Kept, TextKept, RefusedExactly, SnapshotOf;
      ghost var before, call := AllSnapshots(), Call(requestId, id, request, env);
      var session := sessions[id];
      if requestId <= session.lastRequestId {
        reply := Failure(OutOfOrderRequest);
        RefusedIsKept(before, call, reply);
        return;
      }
      if request.EndSession? {
        reply := End(requestId, id, env);
        EndedIsKept(before, call, reply);
        return;
      }
      reply := ServeNumbered(session, requestId, request, env);
      assert AllSnapshots() == before[id := SnapshotOf(session)];
      ServedIsKept(before, call, reply, SnapshotOf(session));
    }

    /** The session is gone even if its learning cannot be saved. */
    method End(requestId: nat, id: SessionId, env: Environment) returns (reply: Reply)
      requires Valid() && id in sessions
      modifies this, sessions[id]
      ensures Valid() && sessions == old(sessions) - {id} && AllSnapshots() == old(AllSnapshots()) - {id}
    {
      hide GoodRegistry, InStep, Session.Valid, SnapshotOf;
      sessions[id].Accept(requestId);
      sessions := sessions - {id};
      reply := if env.commitFails then Failure(Internal) else Shown(FRESH_STATE);
    }

    method ServeNumbered(session: Session, requestId: nat, request: Request, env: Environment) returns (reply: Reply)
      requires session.Valid() && WellBehaved(session.registry, env) && GoodRequest(request)
      requires !request.StartSession? && !request.EndSession? && !request.MissingPayload? && !request.ResponseSentAsRequest?
      modifies session
      ensures session.Valid() && session.lastRequestId == requestId
      ensures TextKept(old(SnapshotOf(session)), request, reply, SnapshotOf(session))
      ensures RefusedExactly(old(SnapshotOf(session)), request, env, reply)
    {
      hide GoodRegistry, InStep, WellBehaved, Session.Valid, Session.Preedit, Dependable;
      session.Accept(requestId);
      reply := Serve(session, request, env);
    }

    /** Any sequence of requests, failing ones included, leaves every session valid, and each of the
        requests keeps what it should. */
    method HandleAll(calls: seq<Call>) returns (replies: seq<Reply>, ghost history: seq<Snapshots>)
      requires Valid() && forall i :: 0 <= i < |calls| ==> WellBehaved(registry, calls[i].env) && GoodRequest(calls[i].request)
      modifies this, sessions.Values
      ensures Valid() && IsHistory(calls, replies, history)
      ensures history[0] == old(AllSnapshots()) && history[|calls|] == AllSnapshots()
    {
      hide GoodRegistry, InStep, WellBehaved, Session.Valid, GoodRequest, Kept, SnapshotOf;
      replies, history := [], [AllSnapshots()];
      for i := 0 to |calls|
        invariant Valid() && IsHistory(calls[..i], replies, history)
        invariant history[0] == old(AllSnapshots()) && history[i] == AllSnapshots()
        invariant fresh(sessions.Values - old(sessions.Values))
      {
        var reply := Handle(calls[i].requestId, calls[i].id, calls[i].request, calls[i].env);
        replies, history := replies + [reply], history + [AllSnapshots()];
      }
      assert calls[..|calls|] == calls;
    }

    /** A new session takes the place of an older one with a smaller number. */
    method Start(requestId: nat, id: SessionId, style: Option<InputStyle>, possible: bool) returns (reply: Reply)
      requires Valid()
      modifies this
      ensures Valid()
      ensures forall other :: other != id ==> (other in sessions <==> other in old(sessions)) && (other in sessions ==> sessions[other] == old(sessions)[other])
      ensures reply.Failure? ==> sessions == old(sessions) && AllSnapshots() == old(AllSnapshots())
      ensures reply.Failure? <==> style.None? || !possible || (id in old(sessions) && requestId <= old(sessions[id].lastRequestId))
      ensures id in old(sessions) && requestId <= old(sessions[id].lastRequestId) ==> reply.Failure?
      ensures reply.Shown? ==> id in sessions && fresh(sessions[id]) && sessions[id].lastRequestId == requestId && sessions[id].mode == NoInput
      ensures reply.Shown? ==> AllSnapshots() == old(AllSnapshots())[id := SnapshotOf(sessions[id])]
      ensures !reply.TypoCorrections?
    {
      hide GoodRegistry, InStep, Session.Valid, SnapshotOf;
      if id in sessions && requestId <= sessions[id].lastRequestId {
        return Failure(OutOfOrderRequest);
      }
      if style.None? || !possible {
        return Failure(InvalidPayload);
      }
      var session := new Session(registry, behaviour, style.value, requestId);
      sessions := sessions[id := session];
      reply := Shown(FRESH_STATE);
    }
  }
}
