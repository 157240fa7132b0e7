/** Matches responses from the controller with the requests that wait for them. */
module Commander {

  /** Message ids are counted modulo this number. */
  const ID_RANGE: nat := 0xFFFF

  /**
   * A decoded response. `origin` is the serial number of the request the controller answered.
   * It is not transmitted: no operation below decides anything by it.
   */
  datatype Response = Response(msgId: nat, ok: bool, payload: seq<string>, origin: nat)

  datatype Future = Pending | Answered(response: Response) | TimedOut | Cancelled

  /**
   * `active` is the dict of futures by message id, with futures named by the serial number of their request.
   * `outstanding` are the calls of `_execute` that have not reached their end.
   */
  datatype State = State(
    msgId: nat,
    started: nat,
    active: map<nat, nat>,
    futures: map<nat, Future>,
    outstanding: set<nat>,
    empty: bool)

  const INITIAL := State(0, 0, map[], map[], {}, true)

  // ---- Atomic steps between awaits ---------------------------------------

  function NextId(s: State): State {
    s.(msgId := (s.msgId + 1) % ID_RANGE, started := s.started + 1)
  }

  function Start(s: State): State {
    var t := NextId(s);
    t.(active := t.active[t.msgId := t.started],
       futures := t.futures[t.started := Pending],
       outstanding := t.outstanding + {t.started},
       empty := false)
  }

  /** An unknown id and a future that is already done are both only logged. */
  function Respond(s: State, r: Response): State {
    if r.msgId in s.active then Resolve(s, s.active[r.msgId], Answered(r)) else s
  }

  function Resolve(s: State, k: nat, f: Future): State {
    if k in s.futures && s.futures[k].Pending? then s.(futures := s.futures[k := f]) else s
  }

  /** The `finally` block of request `k`: when its id is gone already, `del` raises before the event is set. */
  function Finish(s: State, k: nat): State {
    var id := k % ID_RANGE;
    var t := s.(outstanding := s.outstanding - {k});
    if id !in s.active then t
    else
      var active := s.active - {id};
      t.(active := active, empty := s.empty || active == map[])
  }

  datatype Event =
    | EncodeFails                 // an id is used up, but nothing is sent
    | Starts
    | Responds(response: Response)
    | Expires(k: nat)             // `wait_for` gives up
    | Cancels(k: nat)             // the caller is cancelled
    | Finishes(k: nat)

  function Apply(s: State, e: Event): State {
    match e
    case EncodeFails => NextId(s)
    case Starts => Start(s)
    case Responds(r) => Respond(s, r)
    case Expires(k) => Resolve(s, k, TimedOut)
    case Cancels(k) => Resolve(s, k, Cancelled)
    case Finishes(k) => Finish(s, k)
  }

  function Run(s: State, es: seq<Event>): State {
    if es == [] then s else Apply(Run(s, es[..|es| - 1]), es[|es| - 1])
  }

  // ---- The object ---------------------------------------------------------

  datatype Outcome = Payload(payload: seq<string>) | CommandError | CommandTimeout | CallerCancelled | SendError

  /** What `_execute` returns or raises, given the future of its request. */
  function Concluded(f: Future): Outcome {
    match f
    case Answered(r) => if r.ok then Payload(r.payload) else CommandError
    case TimedOut => CommandTimeout
    case Cancelled => CallerCancelled
    case Pending => SendError
  }

  /** The result is an OK answer's payload, or an exception that tells what has ended the waiting. */
  ghost predicate Reports(f: Future, outcome: Outcome) {
    && (forall p :: outcome == Payload(p) <==> f.Answered? && f.response.ok && f.response.payload == p)
    && (outcome == CommandError <==> f.Answered? && !f.response.ok)
    && (outcome == CommandTimeout <==> f == TimedOut)
    && (outcome == CallerCancelled <==> f == Cancelled)
    && (outcome == SendError <==> f == Pending)
  }

  class CboxCommander {
    var msgId: nat
    var started: nat
    var active: map<nat, nat>
    var futures: map<nat, Future>
    var outstanding: set<nat>
    var empty: bool

    function Now(): State
      reads this
    {
      State(msgId, started, active, futures, outstanding, empty)
    }

    constructor ()
      ensures Now() == INITIAL
    {
      msgId, started, active, futures, outstanding, empty := 0, 0, map[], map[], {}, true;
    }

    method NextMessageId() returns (id: nat)
      modifies this`msgId, this`started
      ensures Now() == NextId(old(Now())) && id == msgId == (old(msgId) + 1) % 0xFFFF
    {
      msgId := (msgId + 1) % ID_RANGE;
      started := started + 1;
      id := msgId;
    }

    /** `_execute` up to its first `await`. */
    method BeginExecute() returns (id: nat, k: nat)
      modifies this
      ensures Now() == Start(old(Now()))
      ensures id == msgId && k == started && k in outstanding
    {
      id := NextMessageId();
      k := started;
      futures := futures[k := Pending];
      active := active[id := k];
      outstanding := outstanding + {k};
      empty := false;
    }

    method OnResponse(r: Response)
      modifies this`futures
      ensures Now() == Respond(old(Now()), r)
    {
      if r.msgId in active {
        var k := active[r.msgId];
        if k in futures && futures[k].Pending? {
          futures := futures[k := Answered(r)];
        }
      }
    }

    /** `wait_for` ends by its timeout, or because the caller is cancelled. */
    method GiveUp(k: nat, cancelled: bool)
      modifies this`futures
      ensures Now() == Apply(old(Now()), if cancelled then Cancels(k) else Expires(k))
    {
      if k in futures && futures[k].Pending? {
        futures := futures[k := if cancelled then Cancelled else TimedOut];
      }
    }

    /** The rest of `_execute`; `lost` reports that `del` raised a KeyError. */
    method EndExecute(k: nat) returns (outcome: Outcome, lost: bool)
      requires k in futures
      modifies this`active, this`outstanding, this`empty
      ensures Now() == Finish(old(Now()), k)
      ensures outcome == Concluded(futures[k])
      ensures Reports(futures[k], outcome)
      ensures lost <==> k % ID_RANGE !in old(active)
    {
      outcome := Concluded(futures[k]);
      outstanding := outstanding - {k};
      lost := k % ID_RANGE !in active;
      if !lost {
        active := active - {k % ID_RANGE};
        if active == map[] {
          empty := true;
        }
      }
    }
  }

  // ---- What every interleaving keeps --------------------------------------

  /** `active` names the latest request that got the id. */
  ghost predicate Tables(s: State) {
    && s.msgId == s.started % ID_RANGE
    && (forall k :: k in s.futures ==> 0 < k <= s.started)
    && (forall id :: id in s.active ==> IsLatest(s, id, s.active[id]))
    && (forall k :: k in s.outstanding ==> k in s.futures)
  }

  /** An answer is only kept by the request it was meant for. */
  ghost predicate HoldsOwn(s: State) {
    forall k :: k in s.futures && s.futures[k].Answered? ==> s.futures[k].response.origin == k
  }

  ghost predicate Inv(s: State) {
    Tables(s) && HoldsOwn(s)
  }

  ghost predicate IsLatest(s: State, id: nat, k: nat) {
    && k in s.futures && k % ID_RANGE == id
    && forall j :: j in s.futures && j % ID_RANGE == id ==> j <= k
  }

  /**
   * What the controller and the event loop may do: fewer than `ID_RANGE` ids are taken between a request and its
   * answer.
   */
  ghost predicate Possible(s: State, e: Event) {
    match e
    case EncodeFails => true
    case Starts => true
    case Responds(r) =>
      r.origin in s.futures && s.started < r.origin + ID_RANGE && r.msgId == r.origin % ID_RANGE
    case Expires(k) => k in s.outstanding
    case Cancels(k) => k in s.outstanding
    case Finishes(k) => k in s.outstanding
  }

  ghost predicate PossibleRun(s: State, es: seq<Event>) {
    es == [] || (PossibleRun(s, es[..|es| - 1]) && Possible(Run(s, es[..|es| - 1]), es[|es| - 1]))
  }

  lemma SameIdApart(j: nat, k: nat)
    requires j < k && j % ID_RANGE == k % ID_RANGE
    ensures j + ID_RANGE <= k
  {
  }

  /** The future that a response finds is the one of the request it answers. */
  lemma ResponseFindsItsRequest(s: State, r: Response)
    requires Inv(s) && Possible(s, Responds(r)) && r.msgId in s.active
    ensures s.active[r.msgId] == r.origin
  {
    var k := s.active[r.msgId];
    assert IsLatest(s, r.msgId, k);
    if r.origin < k {
      SameIdApart(r.origin, k);
    }
  }

  lemma NextIdKeepsTables(s: State)
    requires Tables(s)
    ensures Tables(NextId(s))
  {
    var t := NextId(s);
    forall id | id in t.active ensures IsLatest(t, id, t.active[id]) {
      assert IsLatest(s, id, s.active[id]);
    }
  }

  /** A new future becomes the latest of its id. */
  lemma RegisterKeepsTables(t: State, u: State)
    requires Tables(t) && t.started !in t.futures && 0 < t.started
    requires u == t.(active := t.active[t.msgId := t.started],
                     futures := t.futures[t.started := Pending],
                     outstanding := t.outstanding + {t.started},
                     empty := false)
    ensures Tables(u)
  {
    forall id | id in u.active ensures IsLatest(u, id, u.active[id]) {
      if id != t.msgId {
        assert IsLatest(t, id, t.active[id]);
      }
    }
  }

  lemma StartKeepsTables(s: State)
    requires Tables(s)
    ensures Tables(Start(s))
  {
    hide Tables;
    NextIdKeepsTables(s);
    NewSerial(s);
    RegisterKeepsTables(NextId(s), Start(s));
  }

  lemma NewSerial(s: State)
    requires Tables(s)
    ensures NextId(s).started !in NextId(s).futures
  {
  }

  lemma ResolveKeepsTables(s: State, k: nat, f: Future)
    requires Tables(s)
    ensures Tables(Resolve(s, k, f))
  {
    var t := Resolve(s, k, f);
    forall id | id in t.active ensures IsLatest(t, id, t.active[id]) {
      assert IsLatest(s, id, s.active[id]);
    }
  }

  lemma FinishKeepsTables(s: State, k: nat)
    requires Tables(s)
    ensures Tables(Finish(s, k))
  {
    var t := Finish(s, k);
    forall id | id in t.active ensures IsLatest(t, id, t.active[id]) {
      assert IsLatest(s, id, s.active[id]);
    }
  }

  lemma ApplyKeepsTables(s: State, e: Event)
    requires Tables(s)
    ensures Tables(Apply(s, e))
  {
    hide Tables, Start, NextId, Resolve, Finish;
    match e
    case EncodeFails => NextIdKeepsTables(s);
    case Starts => StartKeepsTables(s);
    case Responds(r) =>
      if r.msgId in s.active {
        ResolveKeepsTables(s, s.active[r.msgId], Answered(r));
      }
    case Expires(k) => ResolveKeepsTables(s, k, TimedOut);
    case Cancels(k) => ResolveKeepsTables(s, k, Cancelled);
    case Finishes(k) => FinishKeepsTables(s, k);
  }

  /** The response completes a request that it does not answer. */
  predicate IsMisdirected(s: State, r: Response) {
    && r.msgId in s.active && s.active[r.msgId] != r.origin
    && s.active[r.msgId] in s.futures && s.futures[s.active[r.msgId]].Pending?
  }

  lemma OthersHoldOwn(s: State, e: Event)
    requires Tables(s) && HoldsOwn(s) && !e.Responds?
    ensures HoldsOwn(Apply(s, e))
  {
    if e.Starts? {
      NewSerial(s);
    }
  }

  /** A step keeps answers with their own requests unless it is a misdirected response. */
  lemma StepHoldsOwn(s: State, e: Event)
    requires Tables(s) && HoldsOwn(s)
    ensures HoldsOwn(Apply(s, e)) <==> !(e.Responds? && IsMisdirected(s, e.response))
  {
    hide Tables;
    if e.Responds? {
      var r := e.response;
      if IsMisdirected(s, r) {
        assert Apply(s, e).futures[s.active[r.msgId]] == Answered(r);
      }
    } else {
      OthersHoldOwn(s, e);
    }
  }

  /** In time, no response is misdirected. */
  lemma InTimeIsOwn(s: State, e: Event)
    requires Inv(s) && Possible(s, e)
    ensures !(e.Responds? && IsMisdirected(s, e.response))
  {
    hide Inv, Possible;
    if e.Responds? && e.response.msgId in s.active {
      ResponseFindsItsRequest(s, e.response);
    }
  }

  lemma ApplyKeepsInv(s: State, e: Event)
    requires Inv(s) && Possible(s, e)
    ensures Inv(Apply(s, e))
  {
    hide Tables, HoldsOwn, Possible, Apply, IsMisdirected;
    ApplyKeepsTables(s, e);
    InTimeIsOwn(s, e);
    StepHoldsOwn(s, e);
  }

  lemma {:induction false} RunKeepsInv(s: State, es: seq<Event>)
    requires Inv(s) && PossibleRun(s, es)
    ensures Inv(Run(s, es))
  {
    if es != [] {
      RunKeepsInv(s, es[..|es| - 1]);
      ApplyKeepsInv(Run(s, es[..|es| - 1]), es[|es| - 1]);
    }
  }

  /** In every run, a completed request was completed by its own answer, however late it came. */
  lemma OwnAnswers(es: seq<Event>, k: nat)
    requires PossibleRun(INITIAL, es)
    requires k in Run(INITIAL, es).futures && Run(INITIAL, es).futures[k].Answered?
    ensures Run(INITIAL, es).futures[k].response.origin == k
  {
    RunKeepsInv(INITIAL, es);
  }

  lemma ApplyKeepsDone(s: State, e: Event, k: nat)
    requires Tables(s) && k in s.futures && !s.futures[k].Pending?
    ensures k in Apply(s, e).futures && Apply(s, e).futures[k] == s.futures[k]
  {
  }

  lemma {:induction false} RunKeepsTables(s: State, es: seq<Event>)
    requires Tables(s)
    ensures Tables(Run(s, es))
  {
    hide Tables, Apply;
    if es != [] {
      RunKeepsTables(s, es[..|es| - 1]);
      ApplyKeepsTables(Run(s, es[..|es| - 1]), es[|es| - 1]);
    }
  }

  /** A done future stays as it is, whatever happens. */
  lemma {:induction false} StaysDone(s: State, es: seq<Event>, n: nat, k: nat)
    requires Tables(s) && n <= |es|
    requires k in Run(s, es[..n]).futures && !Run(s, es[..n]).futures[k].Pending?
    ensures k in Run(s, es).futures && Run(s, es).futures[k] == Run(s, es[..n]).futures[k]
    decreases |es|
  {
    hide Tables, Apply;
    if n == |es| {
      assert es[..n] == es;
    } else {
      var before := es[..|es| - 1];
      assert before[..n] == es[..n];
      StaysDone(s, before, n, k);
      RunKeepsTables(s, before);
      ApplyKeepsDone(Run(s, before), es[|es| - 1], k);
    }
  }

  // ---- What a call returns ------------------------------------------------------

  /** Events that end the waiting for `k`: its answer, its timeout, and the cancellation of its caller. */
  predicate Ends(s: State, e: Event, k: nat) {
    || e == Expires(k)
    || e == Cancels(k)
    || (e.Responds? && e.response.msgId in s.active && s.active[e.response.msgId] == k)
  }

  /** Nothing among the first `n` events ends the waiting for `k`. */
  ghost predicate Undecided(es: seq<Event>, n: nat, k: nat)
    requires n <= |es|
  {
    forall i :: 0 <= i < n && k in Run(INITIAL, es[..i]).futures ==> !Ends(Run(INITIAL, es[..i]), es[i], k)
  }

  /** Event `n` is the first that ends the waiting for `k` after `k` was started. */
  ghost predicate EndsFirst(es: seq<Event>, n: nat, k: nat) {
    && n < |es| && k in Run(INITIAL, es[..n]).futures && Ends(Run(INITIAL, es[..n]), es[n], k)
    && Undecided(es, n, k)
  }

  /** What the first such event makes of a future. */
  ghost predicate IsEndedBy(f: Future, e: Event) {
    match f
    case Answered(r) => e == Responds(r)
    case TimedOut => e.Expires?
    case Cancelled => e.Cancels?
    case Pending => false
  }

  lemma StepEnds(s: State, e: Event, k: nat)
    requires Tables(s) && k in s.futures
    ensures k in Apply(s, e).futures
    ensures s.futures[k].Pending? && !Ends(s, e, k) ==> Apply(s, e).futures[k].Pending?
    ensures s.futures[k].Pending? && Ends(s, e, k) ==> IsEndedBy(Apply(s, e).futures[k], e)
  {
    if e.Starts? {
      NewSerial(s);
    }
  }

  lemma StartedPending(s: State, e: Event, k: nat)
    requires k !in s.futures && k in Apply(s, e).futures
    ensures Apply(s, e).futures[k].Pending?
  {
  }

  /** The future of `k` after `n` events: pending until the first event that ends the waiting, and decided by it. */
  lemma {:induction false} FutureIsDecided(es: seq<Event>, n: nat, k: nat)
    requires n <= |es| && k in Run(INITIAL, es[..n]).futures
    ensures Run(INITIAL, es[..n]).futures[k].Pending? <==> Undecided(es, n, k)
    ensures forall i: nat :: i < n && EndsFirst(es, i, k) ==> IsEndedBy(Run(INITIAL, es[..n]).futures[k], es[i])
    ensures Run(INITIAL, es[..n]).futures[k].Pending? || exists i: nat :: i < n && EndsFirst(es, i, k)
    decreases n
  {
    hide Apply, Tables, Ends, IsEndedBy;
    if n == 0 {
      NothingStarted();
    } else {
      RunStep(es, n - 1);
      var s, e := Run(INITIAL, es[..n - 1]), es[n - 1];
      if k in s.futures {
        FutureIsDecided(es, n - 1, k);
        StepEnds(s, e, k);
        if s.futures[k].Pending? {
          assert Ends(s, e, k) ==> EndsFirst(es, n - 1, k);
        } else {
          ApplyKeepsDone(s, e, k);
        }
      } else {
        StartedPending(s, e, k);
        NotStartedBefore(es, n - 1, k);
      }
    }
  }

  lemma {:induction false} NotStartedBefore(es: seq<Event>, n: nat, k: nat)
    requires n <= |es| && k !in Run(INITIAL, es[..n]).futures
    ensures forall i :: 0 <= i <= n ==> k !in Run(INITIAL, es[..i]).futures
    decreases n
  {
    hide Apply, Tables;
    if n > 0 {
      RunStep(es, n - 1);
      StaysStarted(Run(INITIAL, es[..n - 1]), es[n - 1], k);
      NotStartedBefore(es, n - 1, k);
    }
  }

  lemma StaysStarted(s: State, e: Event, k: nat)
    ensures k in s.futures ==> k in Apply(s, e).futures
  {
  }

  /**
   * The call of request `k` returns the payload of an OK answer, or raises, as the first event decides that ends its
   * waiting; that answer is its own. If nothing has ended the waiting, the command could not be sent.
   */
  lemma OutcomeExactly(es: seq<Event>, k: nat, outcome: Outcome)
    requires PossibleRun(INITIAL, es) && k in Run(INITIAL, es).futures
    requires Reports(Run(INITIAL, es).futures[k], outcome)
    ensures forall p :: outcome == Payload(p) <==>
                          exists n: nat :: EndsFirst(es, n, k) && es[n].Responds? && es[n].response.ok &&
                                           es[n].response.payload == p
    ensures outcome == CommandError <==>
            exists n: nat :: EndsFirst(es, n, k) && es[n].Responds? && !es[n].response.ok
    ensures outcome == CommandTimeout <==> exists n: nat :: EndsFirst(es, n, k) && es[n] == Expires(k)
    ensures outcome == CallerCancelled <==> exists n: nat :: EndsFirst(es, n, k) && es[n] == Cancels(k)
    ensures outcome == SendError <==> forall n: nat :: !EndsFirst(es, n, k)
    ensures forall n: nat :: EndsFirst(es, n, k) && es[n].Responds? ==> es[n].response.origin == k
  {
    hide Apply, Tables, Undecided, Possible;
    assert es[..|es|] == es;
    FutureIsDecided(es, |es|, k);
    forall n: nat | EndsFirst(es, n, k) ensures IsEndedBy(Run(INITIAL, es).futures[k], es[n]) && EndedHow(es[n], k) {
      EndsSomehow(Run(INITIAL, es[..n]), es[n], k);
    }
    if Run(INITIAL, es).futures[k].Answered? {
      OwnAnswers(es, k);
    }
    if !Run(INITIAL, es).futures[k].Pending? {
      var n: nat :| EndsFirst(es, n, k);
    }
  }

  ghost predicate EndedHow(e: Event, k: nat) {
    e.Responds? || e == Expires(k) || e == Cancels(k)
  }

  lemma EndsSomehow(s: State, e: Event, k: nat)
    requires Ends(s, e, k)
    ensures EndedHow(e, k)
  {
  }

  // ---- Late answers -----------------------------------------------------------

  /** No response in the run is misdirected. */
  ghost predicate WellDirected(es: seq<Event>) {
    forall n :: 0 <= n < |es| && es[n].Responds? ==> !IsMisdirected(Run(INITIAL, es[..n]), es[n].response)
  }

  lemma RunStep(es: seq<Event>, n: nat)
    requires n < |es|
    ensures Run(INITIAL, es[..n + 1]) == Apply(Run(INITIAL, es[..n]), es[n]) && Tables(Run(INITIAL, es[..n]))
  {
    hide Apply, Tables;
    assert es[..n + 1][..n] == es[..n];
    NothingStarted();
    RunKeepsTables(INITIAL, es[..n]);
  }

  lemma NothingStarted()
    ensures Tables(INITIAL) && HoldsOwn(INITIAL)
  {
  }

  lemma {:induction false} WellDirectedHoldsOwn(es: seq<Event>, n: nat)
    requires WellDirected(es) && n <= |es|
    ensures HoldsOwn(Run(INITIAL, es[..n]))
    decreases n
  {
    hide Apply, Tables, HoldsOwn, IsMisdirected;
    if n == 0 {
      NothingStarted();
    } else {
      WellDirectedHoldsOwn(es, n - 1);
      RunStep(es, n - 1);
      StepHoldsOwn(Run(INITIAL, es[..n - 1]), es[n - 1]);
    }
  }

  lemma MisdirectedAnswer(s: State, r: Response) returns (k: nat)
    requires IsMisdirected(s, r)
    ensures k in Respond(s, r).futures && Respond(s, r).futures[k] == Answered(r) && r.origin != k
  {
    k := s.active[r.msgId];
  }

  /**
   * Whatever happens, and however late answers come: completed requests hold their own answers exactly if no response
   * arrives while its id belongs to another request that is still pending.
   */
  lemma OwnAnswersExactly(es: seq<Event>)
    ensures HoldsOwn(Run(INITIAL, es)) <==> WellDirected(es)
  {
    hide Apply, Tables, IsMisdirected, Respond;
    assert es[..|es|] == es;
    if WellDirected(es) {
      WellDirectedHoldsOwn(es, |es|);
    } else {
      var n :| 0 <= n < |es| && es[n].Responds? && IsMisdirected(Run(INITIAL, es[..n]), es[n].response);
      RunStep(es, n);
      var k := MisdirectedAnswer(Run(INITIAL, es[..n]), es[n].response);
      Responded(Run(INITIAL, es[..n]), es[n]);
      NothingStarted();
      StaysDone(INITIAL, es, n + 1, k);
    }
  }

  lemma Responded(s: State, e: Event)
    requires e.Responds?
    ensures Apply(s, e) == Respond(s, e.response)
  {
  }

  /** An answer to a request is misdirected only after `ID_RANGE` more ids. */
  lemma MisdirectedIsLate(s: State, r: Response)
    requires Tables(s) && IsMisdirected(s, r) && r.origin in s.futures && r.msgId == r.origin % ID_RANGE
    ensures r.origin + ID_RANGE <= s.active[r.msgId] <= s.started
  {
    var k := s.active[r.msgId];
    assert IsLatest(s, r.msgId, k);
    SameIdApart(r.origin, k);
  }

  /** No request completes twice: whatever happens later, a future that is done stays as it is. */
  lemma {:induction false} CompletesOnce(s: State, es: seq<Event>, k: nat)
    requires Inv(s) && PossibleRun(s, es)
    requires k in s.futures && !s.futures[k].Pending?
    ensures k in Run(s, es).futures && Run(s, es).futures[k] == s.futures[k]
  {
    if es != [] {
      var before := es[..|es| - 1];
      CompletesOnce(s, before, k);
      RunKeepsTables(s, before);
      ApplyKeepsDone(Run(s, before), es[|es| - 1], k);
    }
  }

  // ---- Distinct ids and the empty event -----------------------------------

  /**
   * `active` holds exactly the outstanding requests, so their ids differ, and the event tells whether there are any.
   */
  ghost predicate Exact(s: State) {
    Paired(s.active, s.outstanding) && (s.empty <==> s.outstanding == {})
  }

  ghost predicate Paired(active: map<nat, nat>, outstanding: set<nat>) {
    && (forall k :: k in outstanding ==> k % ID_RANGE in active && active[k % ID_RANGE] == k)
    && (forall id :: id in active ==> active[id] in outstanding)
  }

  /** When a request starts, fewer than `ID_RANGE` ids were taken since any outstanding request. */
  ghost predicate Spaced(s: State, e: Event) {
    e.Starts? ==> forall k :: k in s.outstanding ==> s.started + 1 < k + ID_RANGE
  }

  ghost predicate SpacedRun(s: State, es: seq<Event>) {
    es == [] || (SpacedRun(s, es[..|es| - 1]) && Spaced(Run(s, es[..|es| - 1]), es[|es| - 1]))
  }

  ghost predicate IdInUse(s: State) {
    exists k :: k in s.outstanding && k % ID_RANGE == NextId(s).msgId
  }

  lemma NextIdIsSerial(s: State)
    requires Inv(s)
    ensures NextId(s).msgId == (s.started + 1) % ID_RANGE
  {
  }

  lemma PairedAdd(active: map<nat, nat>, outstanding: set<nat>, k: nat)
    requires Paired(active, outstanding)
    requires forall j :: j in outstanding ==> j % ID_RANGE != k % ID_RANGE
    ensures Paired(active[k % ID_RANGE := k], outstanding + {k})
  {
  }

  lemma FreeIds(s: State)
    requires Inv(s) && !IdInUse(s)
    ensures forall j :: j in s.outstanding ==> j % ID_RANGE != (s.started + 1) % ID_RANGE
  {
    NextIdIsSerial(s);
  }

  lemma StartKeepsExact(s: State)
    requires Inv(s) && Exact(s) && !IdInUse(s)
    ensures Exact(Start(s))
  {
    hide Inv, IdInUse, Paired;
    NextIdIsSerial(s);
    FreeIds(s);
    PairedAdd(s.active, s.outstanding, s.started + 1);
    assert s.started + 1 in Start(s).outstanding;
  }

  lemma StartBreaksExact(s: State, k: nat)
    requires Inv(s) && k in s.outstanding && k % ID_RANGE == NextId(s).msgId
    ensures !Exact(Start(s))
  {
    var t := Start(s);
    assert k in t.outstanding && t.active[k % ID_RANGE] != k;
  }

  /** Starting a request keeps ids distinct exactly when no outstanding request has the next id. */
  lemma StartIsExact(s: State)
    requires Inv(s) && Exact(s)
    ensures Exact(Start(s)) <==> !IdInUse(s)
  {
    if k :| k in s.outstanding && k % ID_RANGE == NextId(s).msgId {
      StartBreaksExact(s, k);
    } else {
      StartKeepsExact(s);
    }
  }

  lemma FinishKeepsExact(s: State, k: nat)
    requires Inv(s) && Exact(s) && k in s.outstanding
    ensures Exact(Finish(s, k))
  {
    var t := Finish(s, k);
    forall j | j in t.outstanding ensures j % ID_RANGE in t.active && t.active[j % ID_RANGE] == j {
      assert j in s.outstanding;
    }
    forall id | id in t.active ensures t.active[id] in t.outstanding {
      assert s.active[id] != k by { assert IsLatest(s, id, s.active[id]); }
    }
    if t.active != map[] {
      var id :| id in t.active;
      assert t.active[id] in t.outstanding;
    }
  }

  lemma SpacedMeansFree(s: State)
    requires Inv(s) && Spaced(s, Starts)
    ensures !IdInUse(s)
  {
    hide Inv, NextId;
    NextIdIsSerial(s);
    forall k | k in s.outstanding ensures k % ID_RANGE != NextId(s).msgId {
      StartedEarlier(s, k);
      TooNear(k, s.started + 1);
    }
  }

  lemma StartedEarlier(s: State, k: nat)
    requires Inv(s) && k in s.outstanding
    ensures k <= s.started
  {
  }

  lemma TooNear(j: nat, k: nat)
    requires j < k < j + ID_RANGE
    ensures j % ID_RANGE != k % ID_RANGE
  {
    if j % ID_RANGE == k % ID_RANGE {
      SameIdApart(j, k);
    }
  }

  lemma SameTablesExact(s: State, t: State)
    requires Exact(s) && t.active == s.active && t.outstanding == s.outstanding && t.empty == s.empty
    ensures Exact(t)
  {
  }

  lemma ApplyKeepsExact(s: State, e: Event)
    requires Inv(s) && Exact(s) && Possible(s, e) && Spaced(s, e)
    ensures Exact(Apply(s, e))
  {
    if e.Starts? {
      SpacedMeansFree(s);
      StartKeepsExact(s);
    } else if e.Finishes? {
      FinishKeepsExact(s, e.k);
    } else {
      SameTablesExact(s, Apply(s, e));
    }
  }

  /**
   * In every run where fewer than `ID_RANGE` ids are taken while a request is outstanding, outstanding requests have
   * distinct ids, and the empty event is set exactly when there are none.
   */
  lemma {:induction false} RunKeepsExact(s: State, es: seq<Event>)
    requires Inv(s) && Exact(s) && PossibleRun(s, es) && SpacedRun(s, es)
    ensures Exact(Run(s, es))
  {
    if es != [] {
      var before := es[..|es| - 1];
      RunKeepsExact(s, before);
      RunKeepsInv(s, before);
      ApplyKeepsExact(Run(s, before), es[|es| - 1]);
    }
  }

  lemma DistinctIds(es: seq<Event>)
    requires PossibleRun(INITIAL, es) && SpacedRun(INITIAL, es)
    ensures var s := Run(INITIAL, es);
            && (s.empty <==> s.outstanding == {})
            && s.active.Values == s.outstanding
            && forall j, k :: j in s.outstanding && k in s.outstanding && j != k ==> j % ID_RANGE != k % ID_RANGE
  {
    RunKeepsExact(INITIAL, es);
    var s := Run(INITIAL, es);
    forall k ensures k in s.active.Values <==> k in s.outstanding {
      if k in s.outstanding {
        assert k % ID_RANGE in s.active;
      }
    }
  }

  // ---- Exactly the runs without clashes -------------------------------------

  /** No request starts while an outstanding one has its id. */
  ghost predicate ClashFree(es: seq<Event>) {
    forall n :: 0 <= n < |es| && es[n].Starts? ==> !IdInUse(Run(INITIAL, es[..n]))
  }

  lemma {:induction false} PrefixIsPossible(es: seq<Event>, n: nat)
    requires PossibleRun(INITIAL, es) && n <= |es|
    ensures PossibleRun(INITIAL, es[..n])
    decreases |es|
  {
    if n < |es| {
      var before := es[..|es| - 1];
      PrefixIsPossible(before, n);
      assert before[..n] == es[..n];
    } else {
      assert es[..n] == es;
    }
  }

  lemma StepAt(es: seq<Event>, n: nat)
    requires PossibleRun(INITIAL, es) && n < |es|
    ensures Inv(Run(INITIAL, es[..n])) && Possible(Run(INITIAL, es[..n]), es[n])
    ensures Run(INITIAL, es[..n + 1]) == Apply(Run(INITIAL, es[..n]), es[n])
  {
    hide Inv, Possible, Apply;
    PrefixIsPossible(es, n + 1);
    PrefixIsPossible(es, n);
    assert es[..n + 1][..n] == es[..n];
    InitialInv();
    RunKeepsInv(INITIAL, es[..n]);
  }

  lemma InitialInv()
    ensures Inv(INITIAL) && Exact(INITIAL)
  {
  }

  /** One step keeps the tables exact unless it starts a request whose id is in use. */
  lemma StepIsExact(s: State, e: Event)
    requires Inv(s) && Exact(s) && Possible(s, e)
    ensures Exact(Apply(s, e)) <==> !(e.Starts? && IdInUse(s))
  {
    hide Inv, Exact, IdInUse;
    if e.Starts? {
      StartIsExact(s);
    } else if e.Finishes? {
      FinishKeepsExact(s, e.k);
    } else {
      SameTablesExact(s, Apply(s, e));
    }
  }

  lemma {:induction false} ClashFreeIsExact(es: seq<Event>, n: nat)
    requires PossibleRun(INITIAL, es) && ClashFree(es) && n <= |es|
    ensures Exact(Run(INITIAL, es[..n]))
    decreases n
  {
    hide Inv, Exact, IdInUse, Possible, Apply;
    if n == 0 {
      InitialInv();
    } else {
      ClashFreeIsExact(es, n - 1);
      StepAt(es, n - 1);
      StepIsExact(Run(INITIAL, es[..n - 1]), es[n - 1]);
    }
  }

  /**
   * In every run, ids stay distinct and the empty event stays right exactly if no request starts while an outstanding
   * one has its id.
   */
  lemma ExactExactly(es: seq<Event>)
    requires PossibleRun(INITIAL, es)
    ensures (forall n :: 0 <= n <= |es| ==> Exact(Run(INITIAL, es[..n]))) <==> ClashFree(es)
  {
    hide Inv, Exact, IdInUse, Possible, Apply;
    if ClashFree(es) {
      forall n | 0 <= n <= |es| ensures Exact(Run(INITIAL, es[..n])) {
        ClashFreeIsExact(es, n);
      }
    } else {
      var n :| 0 <= n < |es| && es[n].Starts? && IdInUse(Run(INITIAL, es[..n]));
      StepAt(es, n);
      if Exact(Run(INITIAL, es[..n])) {
        StepIsExact(Run(INITIAL, es[..n]), es[n]);
      }
    }
  }

  // ---- A run with a clash -----------------------------------------------------

  /** Without that spacing the event lies: the older request is outstanding when the younger one sets it. */
  lemma ReusedIdSetsEmptyEarly(s: State, k: nat)
    requires s.active == map[k % ID_RANGE := k] && s.outstanding == {k}
    requires s.msgId == s.started % ID_RANGE && s.started + 1 == k + ID_RANGE
    ensures var t := Finish(Start(s), s.started + 1);
            t.empty && t.outstanding == {k} && k % ID_RANGE !in t.active
  {
    assert (k + ID_RANGE) % ID_RANGE == k % ID_RANGE;
    assert Start(s).active == map[k % ID_RANGE := s.started + 1];
  }

  /** One request, and then `n` ids that are used up without a request. */
  function LongWait(n: nat): seq<Event> {
    if n == 0 then [Starts] else LongWait(n - 1) + [EncodeFails]
  }

  function WaitingState(n: nat): State {
    State((n + 1) % ID_RANGE, n + 1, map[1 := 1], map[1 := Pending], {1}, false)
  }

  lemma RunNext(es: seq<Event>, e: Event, s: State)
    requires PossibleRun(INITIAL, es) && Run(INITIAL, es) == s && Possible(s, e)
    ensures PossibleRun(INITIAL, es + [e]) && Run(INITIAL, es + [e]) == Apply(s, e)
  {
    assert (es + [e])[..|es|] == es;
  }

  lemma {:induction false} AfterLongWait(n: nat)
    ensures PossibleRun(INITIAL, LongWait(n)) && Run(INITIAL, LongWait(n)) == WaitingState(n)
  {
    hide Run, PossibleRun, Apply, WaitingState;
    if n == 0 {
      NothingRun();
      RunNext([], Starts, INITIAL);
      assert [] + [Starts] == [Starts];
      WaitingStarts();
    } else {
      AfterLongWait(n - 1);
      RunNext(LongWait(n - 1), EncodeFails, WaitingState(n - 1));
      WaitingNext(n - 1);
    }
  }

  lemma WaitingStarts()
    ensures Apply(INITIAL, Starts) == WaitingState(0)
  {
    assert INITIAL.outstanding + {1} == {1};
  }

  lemma WaitingNext(n: nat)
    ensures Apply(WaitingState(n), EncodeFails) == WaitingState(n + 1)
  {
    assert ((n + 1) % ID_RANGE + 1) % ID_RANGE == (n + 2) % ID_RANGE;
  }

  lemma NothingRun()
    ensures PossibleRun(INITIAL, []) && Run(INITIAL, []) == INITIAL
  {
  }

  /** A run at whose end the event is set while request 1 is outstanding and its id is gone from the table. */
  lemma EventIsSetEarly() returns (es: seq<Event>)
    ensures PossibleRun(INITIAL, es)
    ensures var s := Run(INITIAL, es); s.empty && s.outstanding == {1} && 1 % ID_RANGE !in s.active
  {
    hide Run, PossibleRun, Start, Finish;
    var wait, s := LongWait(ID_RANGE - 1), WaitingState(ID_RANGE - 1);
    AfterLongWait(ID_RANGE - 1);
    ReusedIdSetsEmptyEarly(s, 1);
    RunNext(wait, Starts, s);
    YoungestIsOutstanding(s);
    RunNext(wait + [Starts], Finishes(s.started + 1), Start(s));
    es := wait + [Starts] + [Finishes(s.started + 1)];
  }

  lemma YoungestIsOutstanding(s: State)
    ensures s.started + 1 in Start(s).outstanding
  {
  }

  /** A run after which a late answer to request 1 completes the request that got its id. */
  lemma LateAnswer(ok: bool, payload: seq<string>) returns (es: seq<Event>)
    ensures PossibleRun(INITIAL, es)
    ensures var s, r := Run(INITIAL, es), Response(1, ok, payload, 1);
            var t := Run(INITIAL, es + [Responds(r)]);
            && s.futures == map[1 := Pending, ID_RANGE + 1 := Pending]
            && t.futures == map[1 := Pending, ID_RANGE + 1 := Answered(r)]
  {
    hide Run, PossibleRun;
    var wait, s := LongWait(ID_RANGE - 1), WaitingState(ID_RANGE - 1);
    AfterLongWait(ID_RANGE - 1);
    RunNext(wait, Starts, s);
    es := wait + [Starts];
    RunMore(es, Responds(Response(1, ok, payload, 1)));
  }

  lemma RunMore(es: seq<Event>, e: Event)
    ensures Run(INITIAL, es + [e]) == Apply(Run(INITIAL, es), e)
  {
    assert (es + [e])[..|es|] == es;
  }
}
