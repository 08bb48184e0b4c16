/** The mission as a state machine: each tick object looks at the autopilot and the operator's
    decisions and either stays or hands over to another tick. */
module Ticks {
  import opened Options

  datatype Airdrop = Water | Beacon

  const NUM_AIRDROPS := 2

  datatype CVStatus = NoDecision | Validated | Rejected

  datatype PathStatus = Undecided | Accepted | Refused

  datatype TakeoffStatus = Waiting | Manual | Autonomous

  /** Which stored path an upload sends. */
  datatype Route = Initial | Coverage | Approach

  /** A tick object with its own fields; `next` is the tick it was told to hand over to. */
  datatype Tick =
    | MissionPrep
    | PathGen
    | PathValidate(pathStatus: PathStatus)
    | MavUpload(next: Tick, route: Route, geofence: bool)
    | WaitForTakeoff(takeoffStatus: TakeoffStatus)
    | Takeoff
    | ActiveTakeoff
    | FlyWaypoints(next: Tick)
    | FlySearch(missionStarted: bool, currItem: int)
    | CVLoiter
    | AirdropPrep
    | AirdropApproach
    | ManualLanding
    | AutoLanding
    | MissionDone
    | Refueling

  /** Everything one tick may find out from outside: the operator's mission, the background jobs
      and the autopilot. */
  datatype Readings = Readings(missionCached: bool, initPathReady: bool, coveragePathReady: bool,
                               uploadReady: bool, uploadOk: bool, flightModeMission: bool,
                               takeoffReady: bool, takeoffOk: bool, startMissionOk: bool,
                               missionFinished: bool, atFinalWaypoint: bool, armed: bool,
                               currWaypoint: int, pathReadyAtPoll: nat)

  function FreshSearch(): Tick { FlySearch(false, 1) }

  /** The shared state. The last five fields are history: how often FlyWaypoints was entered, which
      airdrops were selected, which were triggered, how often AirdropPrep was left, and whether the
      operator ever validated the targets. */
  datatype Mission = Mission(tick: Tick, lapsRemaining: int, cvStatus: CVStatus, dropped: set<Airdrop>,
                             nextAirdrop: Option<Airdrop>, mav: bool, aggregator: bool, mappingDone: bool,
                             lapsFlown: nat, selected: seq<Airdrop>, triggered: seq<Airdrop>,
                             prepExits: nat, everValidated: bool)

  const PATH_WAIT_MS := 2500
  const PATH_POLL_MS := 100

  /** The new lap's path is awaited in 100 ms steps for 2.5 s. */
  method AwaitPath(pathReadyAtPoll: nat) returns (inTime: bool)
    ensures inTime <==> pathReadyAtPoll < PATH_WAIT_MS / PATH_POLL_MS
  {
    var countMs := PATH_WAIT_MS;
    var poll := 0;
    var ready := pathReadyAtPoll <= poll;
    while !ready && countMs > 0
      invariant 0 <= countMs && countMs == PATH_WAIT_MS - poll * PATH_POLL_MS
      invariant ready <==> pathReadyAtPoll <= poll
      invariant poll > 0 ==> pathReadyAtPoll > poll - 1
      decreases countMs
    {
      poll := poll + 1;
      ready := pathReadyAtPoll <= poll;
      countMs := countMs - PATH_POLL_MS;
    }
    if countMs <= 0 {
      return false;
    }
    return true;
  }

  function NextAirdrop(dropped: set<Airdrop>): Airdrop {
    if Water !in dropped then Water else if Beacon !in dropped then Beacon else Water
  }

  /** What a tick does to the shared state, and the tick it hands over to, if any. */
  function TickResult(m: Mission, r: Readings, payloadSize: nat): (Mission, Option<Tick>) {
    match m.tick
    case MissionPrep =>
      if r.missionCached then (m.(aggregator := true, mappingDone := false), Some(PathGen)) else (m, None)
    case PathGen =>
      if r.initPathReady && r.coveragePathReady then (m, Some(PathValidate(Undecided))) else (m, None)
    case PathValidate(status) =>
      if status.Accepted? && m.mav then (m, Some(MavUpload(WaitForTakeoff(Waiting), Initial, true)))
      else if status.Refused? then (m, Some(PathGen))
      else (m, None)
    case MavUpload(next, route, geofence) =>
      if !r.uploadReady then (m, None)
      else if !r.uploadOk then (m, Some(MavUpload(next, route, geofence)))
      else (m, Some(next))
    case WaitForTakeoff(status) =>
      if status.Manual? then (m, Some(Takeoff))
      else if status.Autonomous? then (m, Some(ActiveTakeoff))
      else (m, None)
    case Takeoff =>
      if r.flightModeMission then (m, Some(FlyWaypoints(MavUpload(FreshSearch(), Coverage, false)))) else (m, None)
    case ActiveTakeoff =>
      if !r.takeoffReady then (m, None)
      else if !r.takeoffOk || !r.startMissionOk then (m, Some(MissionPrep))
      else if |m.dropped| >= payloadSize then (m, Some(FlyWaypoints(AirdropPrep)))
      else (m, Some(FlyWaypoints(MavUpload(FreshSearch(), Coverage, false))))
    case FlyWaypoints(_) =>
      if !r.missionFinished then (m, None)
      else if m.lapsRemaining > 0 then
        if r.pathReadyAtPoll < PATH_WAIT_MS / PATH_POLL_MS
        then (m, Some(MavUpload(FlyWaypoints(FreshSearch()), Initial, false)))
        else (m, None)
      else (m, Some(MavUpload(FreshSearch(), Coverage, false)))
    case FlySearch(started, item) =>
      if m.cvStatus.Validated? then (m.(cvStatus := NoDecision), Some(AirdropPrep))
      else if !started then (m.(tick := FlySearch(r.startMissionOk, item)), None)
      else if r.missionFinished then (m, Some(CVLoiter))
      else (m.(tick := FlySearch(started, r.currWaypoint)), None)
    case CVLoiter =>
      if m.cvStatus.Validated? then (m, Some(AirdropPrep))
      else if m.cvStatus.Rejected? then (m, Some(FreshSearch()))
      else (m, None)
    case AirdropPrep =>
      if |m.dropped| >= NUM_AIRDROPS then (m.(prepExits := m.prepExits + 1), Some(ManualLanding))
      else
        var a := NextAirdrop(m.dropped);
        (m.(dropped := m.dropped + {a}, nextAirdrop := Some(a), selected := m.selected + [a],
            prepExits := m.prepExits + 1),
         Some(MavUpload(AirdropApproach, Approach, false)))
    case AirdropApproach =>
      var m' := if r.atFinalWaypoint && m.nextAirdrop.Some?
                then m.(triggered := m.triggered + [m.nextAirdrop.value]) else m;
      if !r.missionFinished then (m', None)
      else if |m.dropped| >= NUM_AIRDROPS then (m', Some(ManualLanding))
      else (m', Some(AirdropPrep))
    case ManualLanding =>
      if |m.dropped| >= NUM_AIRDROPS then (m.(mappingDone := true), None) else (m, None)
    case AutoLanding => (m, None)
    case MissionDone => (m, None)
    case Refueling =>
      if r.armed then (m, Some(MavUpload(WaitForTakeoff(Waiting), Initial, false))) else (m, None)
  }

  /** Entering a tick. */
  function Entered(m: Mission, tick: Tick, r: Readings): Mission {
    match tick
    case FlyWaypoints(_) => m.(tick := tick, lapsRemaining := m.lapsRemaining - 1, lapsFlown := m.lapsFlown + 1)
    case FlySearch(_, item) => m.(tick := FlySearch(r.startMissionOk, item))
    case _ => m.(tick := tick)
  }

  function Ticked(m: Mission, r: Readings, payloadSize: nat): Mission {
    var (m', next) := TickResult(m, r, payloadSize);
    if next.Some? then Entered(m', next.value, r) else m'
  }

  /** One thing that can happen: a tick, a decision of the operator, or the autopilot connecting. */
  datatype Event =
    | DoTick(readings: Readings)
    | DecidePath(pathStatus: PathStatus)
    | DecideTakeoff(takeoffStatus: TakeoffStatus)
    | DecideTargets(cvStatus: CVStatus)
    | ConnectMav

  function Happened(m: Mission, e: Event, payloadSize: nat): Mission {
    match e
    case DoTick(r) => Ticked(m, r, payloadSize)
    case DecidePath(s) => if m.tick.PathValidate? then m.(tick := PathValidate(s)) else m
    case DecideTakeoff(s) => if m.tick.WaitForTakeoff? then m.(tick := WaitForTakeoff(s)) else m
    case DecideTargets(s) =>
      if m.aggregator then m.(cvStatus := s, everValidated := m.everValidated || s.Validated?) else m
    case ConnectMav => m.(mav := true)
  }

  function Play(m: Mission, events: seq<Event>, payloadSize: nat): Mission
    decreases |events|
  {
    if events == [] then m else Play(Happened(m, events[0], payloadSize), events[1..], payloadSize)
  }

  function Launch(laps: int): Mission {
    Mission(MissionPrep, laps, NoDecision, {}, None, false, false, false, 0, [], [], 0, false)
  }

  // ----- what holds on every run

  /** How far the mission has got. */
  function Phase(t: Tick): nat {
    match t
    case MissionPrep => 0
    case PathGen => 0
    case PathValidate(_) => 0
    case MavUpload(next, _, _) => Phase(next)
    case WaitForTakeoff(_) => 0
    case Takeoff => 0
    case ActiveTakeoff => 0
    case FlyWaypoints(_) => 1
    case FlySearch(_, _) => 2
    case CVLoiter => 2
    case AirdropPrep => 3
    case AirdropApproach => 3
    case ManualLanding => 4
    case _ => 5
  }

  /** The only uploads that ever happen: each hands over to a tick that is ready to be entered. */
  predicate KnownTick(t: Tick) {
    match t
    case MavUpload(next, route, geofence) =>
      || (next == WaitForTakeoff(Waiting) && route == Initial && geofence)
      || (next == FlyWaypoints(FreshSearch()) && route == Initial && !geofence)
      || (next == FreshSearch() && route == Coverage && !geofence)
      || (next == AirdropApproach && route == Approach && !geofence)
    case AutoLanding => false
    case MissionDone => false
    case Refueling => false
    case _ => true
  }

  function AirdropOrder(): seq<Airdrop> { [Water, Beacon] }

  function Max(a: int, b: int): int { if a > b then a else b }

  predicate LapsFit(m: Mission, laps: int) {
    && m.lapsRemaining + m.lapsFlown == laps
    && m.lapsFlown <= Max(1, laps)
    && (Phase(m.tick) == 0 ==> m.lapsFlown == 0)
    && (Phase(m.tick) >= 1 ==> m.lapsFlown >= 1)
    && (m.tick.MavUpload? && Phase(m.tick) == 1 ==> m.lapsRemaining > 0)
    && (Phase(m.tick) >= 2 ==> m.lapsFlown == Max(1, laps))
  }

  predicate AirdropsFit(m: Mission) {
    && |m.selected| <= NUM_AIRDROPS
    && m.selected == AirdropOrder()[..|m.selected|]
    && m.dropped == (set a | a in m.selected)
    && m.prepExits == |m.selected|
    && (Phase(m.tick) < 3 ==> m.selected == [])
    && (m.tick == AirdropPrep ==> |m.selected| < NUM_AIRDROPS)
    && (m.tick.MavUpload? && Phase(m.tick) == 3 ==> m.selected != [])
    && (m.tick == AirdropApproach ==> m.selected != [])
    && (m.tick == ManualLanding ==> |m.selected| == NUM_AIRDROPS)
    && m.nextAirdrop == (if m.selected == [] then None else Some(m.selected[|m.selected| - 1]))
    && (forall a | a in m.triggered :: a in m.selected)
  }

  /** Nothing is dereferenced before it is there: the autopilot link from the first upload on, the
      image aggregator from the end of mission preparation on. */
  predicate LinksFit(m: Mission) {
    && (m.tick != MissionPrep ==> m.aggregator)
    && (m.mav || m.tick.MissionPrep? || m.tick.PathGen? || m.tick.PathValidate?)
    && (Phase(m.tick) >= 3 || m.cvStatus.Validated? ==> m.everValidated)
  }

  predicate OnCourse(m: Mission, laps: int) {
    KnownTick(m.tick) && LapsFit(m, laps) && AirdropsFit(m) && LinksFit(m)
  }

  lemma DroppedCount(m: Mission)
    requires AirdropsFit(m)
    ensures |m.dropped| == |m.selected|
    ensures |m.selected| < NUM_AIRDROPS ==> NextAirdrop(m.dropped) == AirdropOrder()[|m.selected|]
  {
    if |m.selected| == 0 {
      assert m.dropped == {};
    } else if |m.selected| == 1 {
      assert m.selected == [Water] && m.dropped == {Water};
    } else {
      assert m.selected == [Water, Beacon] && m.dropped == {Water, Beacon};
    }
  }

  /** The ticks that can come next, as far as laps go. */
  predicate LapsReady(m: Mission, t: Tick) {
    && KnownTick(t) && Phase(t) >= Phase(m.tick)
    && (Phase(t) == 1 ==> (if t.FlyWaypoints? then Phase(m.tick) == 0 || m.lapsRemaining > 0
                           else Phase(m.tick) == 1 && m.lapsRemaining > 0))
    && (Phase(t) >= 2 ==> Phase(m.tick) >= 2 || (Phase(m.tick) == 1 && m.lapsRemaining <= 0))
  }

  /** The ticks that can come next, as far as links and airdrops go. */
  predicate LinksReady(m: Mission, t: Tick) {
    && (t == MissionPrep || t.PathGen? || t.PathValidate? || m.mav)
    && (Phase(t) >= 3 ==> Phase(m.tick) >= 3 || m.cvStatus.Validated?)
    && (t == AirdropPrep ==> |m.dropped| < NUM_AIRDROPS || m.tick != AirdropApproach)
    && (t == AirdropApproach ==> m.tick.MavUpload? && Phase(m.tick) == 3)
    && (t.MavUpload? && Phase(t) == 3 ==> m.tick.MavUpload? && Phase(m.tick) == 3)
    && (t == ManualLanding ==> |m.dropped| >= NUM_AIRDROPS)
    && (t == AirdropPrep ==> Phase(m.tick) == 2 || m.tick == AirdropApproach)
  }

  /** What a tick other than AirdropPrep leaves alone. */
  predicate Spared(m: Mission, m': Mission) {
    && m'.lapsRemaining == m.lapsRemaining && m'.lapsFlown == m.lapsFlown
    && m'.dropped == m.dropped && m'.selected == m.selected && m'.prepExits == m.prepExits
    && m'.nextAirdrop == m.nextAirdrop && m'.mav == m.mav && m'.everValidated == m.everValidated
    && (m.aggregator ==> m'.aggregator)
    && (m'.cvStatus == m.cvStatus || m'.cvStatus == NoDecision)
    && (forall a | a in m'.triggered :: a in m.triggered || m.nextAirdrop == Some(a))
    && (m'.tick == m.tick || (m.tick.FlySearch? && m'.tick.FlySearch?))
  }

  lemma OtherTicks(m: Mission, r: Readings, payloadSize: nat, laps: int)
    requires KnownTick(m.tick) && m.tick != AirdropPrep && LapsFit(m, laps)
    requires m.mav || m.tick.MissionPrep? || m.tick.PathGen? || m.tick.PathValidate?
    ensures var next := TickResult(m, r, payloadSize).1;
            next.Some? ==> LapsReady(m, next.value) && LinksReady(m, next.value)
  {
    hide TickResult, LapsReady, LinksReady, LapsFit, KnownTick;
    LapsGoOn(m, r, payloadSize, laps);
    LinksGoOn(m, r, payloadSize);
  }

  lemma LapsGoOn(m: Mission, r: Readings, payloadSize: nat, laps: int)
    requires KnownTick(m.tick) && m.tick != AirdropPrep && LapsFit(m, laps)
    ensures var next := TickResult(m, r, payloadSize).1; next.Some? ==> LapsReady(m, next.value)
  {
    match m.tick {
      case MavUpload(next, _, _) =>
        if next.WaitForTakeoff? {} else if next.FlyWaypoints? {} else if next.FlySearch? {} else {}
      case FlyWaypoints(_) =>
      case FlySearch(_, _) =>
      case AirdropApproach =>
      case ActiveTakeoff =>
      case PathValidate(_) =>
      case WaitForTakeoff(_) =>
      case _ =>
    }
  }

  lemma LinksGoOn(m: Mission, r: Readings, payloadSize: nat)
    requires KnownTick(m.tick) && m.tick != AirdropPrep
    requires m.mav || m.tick.MissionPrep? || m.tick.PathGen? || m.tick.PathValidate?
    ensures var next := TickResult(m, r, payloadSize).1; next.Some? ==> LinksReady(m, next.value)
  {
    match m.tick {
      case MavUpload(next, _, _) =>
        if next.WaitForTakeoff? {} else if next.FlyWaypoints? {} else if next.FlySearch? {} else {}
      case FlyWaypoints(_) =>
      case FlySearch(_, _) =>
      case AirdropApproach =>
      case ActiveTakeoff =>
      case PathValidate(_) =>
      case WaitForTakeoff(_) =>
      case _ =>
    }
  }

  predicate TouchesNothing(t: Tick) {
    !t.MissionPrep? && !t.FlySearch? && !t.AirdropPrep? && !t.AirdropApproach? && !t.ManualLanding?
  }

  lemma MostTouchNothing(m: Mission, r: Readings, payloadSize: nat)
    ensures TouchesNothing(m.tick) ==> TickResult(m, r, payloadSize).0 == m
  {
  }

  lemma NothingSpared(m: Mission)
    ensures Spared(m, m)
  {
  }

  lemma OthersSpared(m: Mission, r: Readings, payloadSize: nat)
    requires m.tick != AirdropPrep
    ensures Spared(m, TickResult(m, r, payloadSize).0)
  {
    hide TickResult, Spared;
    MostTouchNothing(m, r, payloadSize);
    NothingSpared(m);
    if m.tick.FlySearch? {
      SearchSpares(m, r, payloadSize);
    } else if m.tick.AirdropApproach? {
      ApproachSpares(m, r, payloadSize);
    } else if !TouchesNothing(m.tick) {
      EndsSpare(m, r, payloadSize);
    }
  }

  lemma SearchSpares(m: Mission, r: Readings, payloadSize: nat)
    requires m.tick.FlySearch?
    ensures Spared(m, TickResult(m, r, payloadSize).0)
  {
    var m' := TickResult(m, r, payloadSize).0;
    assert m' == m || m' == m.(cvStatus := NoDecision) || (m'.tick.FlySearch? && m' == m.(tick := m'.tick));
  }

  lemma ApproachSpares(m: Mission, r: Readings, payloadSize: nat)
    requires m.tick == AirdropApproach
    ensures Spared(m, TickResult(m, r, payloadSize).0)
  {
  }

  lemma EndsSpare(m: Mission, r: Readings, payloadSize: nat)
    requires m.tick == MissionPrep || m.tick == ManualLanding
    ensures Spared(m, TickResult(m, r, payloadSize).0)
  {
  }

  /** Leaving MissionPrep needs a new aggregator; no other tick touches it. */
  lemma AggregatorKept(m: Mission, r: Readings, payloadSize: nat)
    requires m.tick != AirdropPrep
    ensures var (m', next) := TickResult(m, r, payloadSize);
            m'.aggregator || (m.tick == MissionPrep && next.None?) || (m.tick != MissionPrep && !m.aggregator)
  {
    match m.tick {
      case FlySearch(_, _) =>
      case AirdropApproach =>
      case MissionPrep =>
      case MavUpload(_, _, _) =>
      case PathValidate(_) =>
      case WaitForTakeoff(_) =>
      case FlyWaypoints(_) =>
      case _ =>
    }
  }

  lemma EnteringFits(m: Mission, m': Mission, t: Tick, r: Readings, laps: int)
    requires OnCourse(m, laps) && Spared(m, m') && LapsReady(m, t) && LinksReady(m, t)
    requires |m.dropped| == |m.selected| && m'.aggregator
    ensures OnCourse(Entered(m', t, r), laps)
  {
    hide AirdropOrder, LapsFit, AirdropsFit, LinksReady, Spared, Phase;
    EnteringLaps(m, m', t, r, laps);
    EnteringAirdrops(m, m', t, r);
    EnteringLinks(m, m', t, r);
  }

  /** All that entering a tick changes. */
  lemma EnteredChanges(m: Mission, t: Tick, r: Readings)
    ensures var e := Entered(m, t, r); var flown := if t.FlyWaypoints? then 1 else 0;
            && e == m.(tick := e.tick, lapsRemaining := m.lapsRemaining - flown, lapsFlown := m.lapsFlown + flown)
            && Phase(e.tick) == Phase(t) && (e.tick == t || (e.tick.FlySearch? && t.FlySearch?))
  {
  }

  lemma EnteringLaps(m: Mission, m': Mission, t: Tick, r: Readings, laps: int)
    requires LapsFit(m, laps) && Spared(m, m') && LapsReady(m, t)
    ensures LapsFit(Entered(m', t, r), laps)
  {
    hide Entered, KnownTick;
    EnteredChanges(m', t, r);
    assert t.FlyWaypoints? ==> Phase(t) == 1;
  }

  lemma EnteringAirdrops(m: Mission, m': Mission, t: Tick, r: Readings)
    requires AirdropsFit(m) && Spared(m, m') && LapsReady(m, t) && LinksReady(m, t) && |m.dropped| == |m.selected|
    ensures AirdropsFit(Entered(m', t, r))
  {
    hide AirdropOrder, Entered, KnownTick;
    EnteredChanges(m', t, r);
  }

  lemma EnteringLinks(m: Mission, m': Mission, t: Tick, r: Readings)
    requires LinksFit(m) && Spared(m, m') && LapsReady(m, t) && LinksReady(m, t) && m'.aggregator
    ensures LinksFit(Entered(m', t, r)) && KnownTick(Entered(m', t, r).tick)
  {
  }

  /** Selecting one more airdrop. */
  lemma SelectionGrows(m: Mission, r: Readings, payloadSize: nat)
    requires AirdropsFit(m) && m.tick == AirdropPrep
    ensures AirdropsFit(Ticked(m, r, payloadSize))
  {
    DroppedCount(m);
    var a := AirdropOrder()[|m.selected|];
    var m' := Ticked(m, r, payloadSize);
    assert m'.selected == m.selected + [a];
    assert m'.selected == AirdropOrder()[..|m'.selected|];
    assert forall b :: b in m'.selected <==> b in m.selected || b == a;
  }

  lemma StayingFits(m: Mission, m': Mission, laps: int)
    requires OnCourse(m, laps) && Spared(m, m') && (m'.aggregator || m.tick == MissionPrep)
    ensures OnCourse(m', laps)
  {
    hide AirdropOrder;
  }

  lemma PrepTick(m: Mission, r: Readings, payloadSize: nat, laps: int)
    requires OnCourse(m, laps) && m.tick == AirdropPrep
    ensures OnCourse(Ticked(m, r, payloadSize), laps)
    ensures Phase(Ticked(m, r, payloadSize).tick) >= Phase(m.tick)
  {
    DroppedCount(m);
    SelectionGrows(m, r, payloadSize);
    PrepLapsAndLinks(m, r, payloadSize, laps);
    hide AirdropsFit, AirdropOrder, NextAirdrop;
  }

  lemma PrepLapsAndLinks(m: Mission, r: Readings, payloadSize: nat, laps: int)
    requires LapsFit(m, laps) && LinksFit(m) && m.tick == AirdropPrep
    ensures var n := Ticked(m, r, payloadSize); LapsFit(n, laps) && LinksFit(n) && KnownTick(n.tick)
  {
    hide NextAirdrop;
  }

  lemma TickKeepsCourse(m: Mission, r: Readings, payloadSize: nat, laps: int)
    requires OnCourse(m, laps)
    ensures OnCourse(Ticked(m, r, payloadSize), laps)
    ensures Phase(Ticked(m, r, payloadSize).tick) >= Phase(m.tick)
  {
    hide TickResult, AirdropsFit, LapsFit, KnownTick, Phase, Entered;
    DroppedCount(m);
    if m.tick == AirdropPrep {
      PrepTick(m, r, payloadSize, laps);
    } else {
      var (m', next) := TickResult(m, r, payloadSize);
      OtherTicks(m, r, payloadSize, laps);
      OthersSpared(m, r, payloadSize);
      AggregatorKept(m, r, payloadSize);
      if next.Some? {
        EnteringFits(m, m', next.value, r, laps);
        EnteredPhase(m', next.value, r);
      } else {
        StayingFits(m, m', laps);
        SameKind(m, m');
      }
    }
  }

  lemma EnteredPhase(m: Mission, t: Tick, r: Readings)
    ensures Phase(Entered(m, t, r).tick) == Phase(t)
  {
  }

  lemma SameKind(m: Mission, m': Mission)
    requires Spared(m, m')
    ensures Phase(m'.tick) == Phase(m.tick)
  {
  }

  lemma LaunchOnCourse(laps: int)
    ensures OnCourse(Launch(laps), laps)
  {
  }

  lemma EventKeepsCourse(m: Mission, e: Event, payloadSize: nat, laps: int)
    requires OnCourse(m, laps)
    ensures OnCourse(Happened(m, e, payloadSize), laps)
    ensures Phase(Happened(m, e, payloadSize).tick) >= Phase(m.tick)
  {
    hide Ticked, AirdropOrder;
    if e.DoTick? { TickKeepsCourse(m, e.readings, payloadSize, laps); }
  }

  /** Whatever happens in whatever order, the mission stays on course and never goes back a phase. */
  lemma {:induction false} EveryRunOnCourse(m: Mission, events: seq<Event>, payloadSize: nat, laps: int)
    requires OnCourse(m, laps)
    ensures OnCourse(Play(m, events, payloadSize), laps)
    ensures Phase(Play(m, events, payloadSize).tick) >= Phase(m.tick)
    decreases |events|
  {
    hide OnCourse, Happened, Phase;
    if events != [] {
      EventKeepsCourse(m, events[0], payloadSize, laps);
      EveryRunOnCourse(Happened(m, events[0], payloadSize), events[1..], payloadSize, laps);
    }
  }

  /** A lap is spent on each flight over the waypoints. Once the search has begun, the waypoints
      have been flown max(1, laps) times, and no preparation or waypoint tick comes again. */
  lemma LapsAreSpent(laps: int, before: seq<Event>, after: seq<Event>, payloadSize: nat)
    ensures var m := Play(Launch(laps), before, payloadSize);
            && m.lapsRemaining + m.lapsFlown == laps
            && (m.tick.FlySearch? ==>
                  var later := Play(m, after, payloadSize);
                  m.lapsFlown == Max(1, laps) && later.lapsFlown == m.lapsFlown && Phase(later.tick) >= 2)
  {
    LaunchOnCourse(laps);
    EveryRunOnCourse(Launch(laps), before, payloadSize, laps);
    EveryRunOnCourse(Play(Launch(laps), before, payloadSize), after, payloadSize, laps);
  }

  /** Airdrops are selected in order, each at most once, never before the targets were validated;
      landing comes only after both, is final, and AirdropPrep is left at most twice. */
  lemma AirdropsAreSelectedOnce(laps: int, before: seq<Event>, after: seq<Event>, payloadSize: nat)
    ensures var m := Play(Launch(laps), before, payloadSize);
            var later := Play(m, after, payloadSize);
            && m.prepExits == |m.selected| <= NUM_AIRDROPS
            && m.selected == AirdropOrder()[..|m.selected|]
            && m.dropped == (set a | a in m.selected)
            && (m.selected != [] ==> m.everValidated)
            && (forall a | a in m.triggered :: a in m.selected)
            && (m.tick == AirdropApproach ==> m.selected != [] && m.nextAirdrop == Some(m.selected[|m.selected| - 1]))
            && (m.tick == ManualLanding ==> m.selected == [Water, Beacon] && later.tick == ManualLanding)
  {
    LaunchOnCourse(laps);
    EveryRunOnCourse(Launch(laps), before, payloadSize, laps);
    var m := Play(Launch(laps), before, payloadSize);
    if m.tick == ManualLanding {
      EveryRunOnCourse(m, after, payloadSize, laps);
    }
  }

  /** The autopilot link and the aggregator are there whenever a tick uses them, and the ticks that
      no other tick creates are never entered. */
  lemma LinksAreThere(laps: int, events: seq<Event>, payloadSize: nat)
    ensures var m := Play(Launch(laps), events, payloadSize);
            && (m.tick.MissionPrep? || m.aggregator)
            && (m.tick.MissionPrep? || m.tick.PathGen? || m.tick.PathValidate? || m.mav)
            && !m.tick.AutoLanding? && !m.tick.MissionDone? && !m.tick.Refueling?
  {
    LaunchOnCourse(laps);
    EveryRunOnCourse(Launch(laps), events, payloadSize, laps);
  }

  /** An upload that is still going on, however often it was retried, leads where it led. */
  lemma {:induction false} UploadKeepsItsContinuation(m: Mission, events: seq<Event>, payloadSize: nat)
    requires m.tick.MavUpload? && !m.tick.next.MavUpload?
    requires forall k | 0 <= k <= |events| :: Play(m, events[..k], payloadSize).tick.MavUpload?
    ensures Play(m, events, payloadSize).tick == m.tick
    ensures forall r: Readings | r.uploadReady && r.uploadOk ::
              var last := Play(m, events, payloadSize);
              Ticked(last, r, payloadSize) == Entered(last, m.tick.next, r)
    decreases |events|
  {
    if events == [] {
    } else {
      var m1 := Happened(m, events[0], payloadSize);
      assert events[..1] == [events[0]] && events[..1][1..] == [];
      assert Play(m, events[..1], payloadSize) == m1;
      forall k | 0 <= k <= |events[1..]|
        ensures Play(m1, events[1..][..k], payloadSize).tick.MavUpload?
      {
        assert events[..k + 1][1..] == events[1..][..k];
        assert Play(m, events[..k + 1], payloadSize).tick.MavUpload?;
      }
      UploadKeepsItsContinuation(m1, events[1..], payloadSize);
    }
  }

  // ----- the operator's decisions, as they were made

  /** The last decision on the takeoff among the events, whether or not it was waited for. */
  function LastTakeoff(events: seq<Event>): Option<TakeoffStatus>
    decreases |events|
  {
    if events == [] then None
    else match events[|events| - 1]
      case DecideTakeoff(s) => Some(s)
      case _ => LastTakeoff(events[..|events| - 1])
  }

  function LastPath(events: seq<Event>): Option<PathStatus>
    decreases |events|
  {
    if events == [] then None
    else match events[|events| - 1]
      case DecidePath(s) => Some(s)
      case _ => LastPath(events[..|events| - 1])
  }

  function LastTargets(events: seq<Event>): Option<CVStatus>
    decreases |events|
  {
    if events == [] then None
    else match events[|events| - 1]
      case DecideTargets(s) => Some(s)
      case _ => LastTargets(events[..|events| - 1])
  }

  lemma {:induction false} PlayOneMore(m: Mission, events: seq<Event>, e: Event, payloadSize: nat)
    ensures Play(m, events + [e], payloadSize) == Happened(Play(m, events, payloadSize), e, payloadSize)
    decreases |events|
  {
    hide Happened;
    if events == [] {
      assert Play(m, [e], payloadSize) == Play(Happened(m, e, payloadSize), [], payloadSize);
    } else {
      assert (events + [e])[1..] == events[1..] + [e];
      PlayOneMore(Happened(m, events[0], payloadSize), events[1..], e, payloadSize);
    }
  }

  /** Whatever decision a tick or the shared state holds is the last one that was made. */
  predicate Recorded(m: Mission, events: seq<Event>) {
    && (m.tick.WaitForTakeoff? ==> m.tick.takeoffStatus.Waiting? || LastTakeoff(events) == Some(m.tick.takeoffStatus))
    && (m.tick.PathValidate? ==> m.tick.pathStatus.Undecided? || LastPath(events) == Some(m.tick.pathStatus))
    && (m.cvStatus.NoDecision? || (m.aggregator && LastTargets(events) == Some(m.cvStatus)))
  }

  lemma LastOneMore(events: seq<Event>, e: Event)
    ensures LastTakeoff(events + [e]) == if e.DecideTakeoff? then Some(e.takeoffStatus) else LastTakeoff(events)
    ensures LastPath(events + [e]) == if e.DecidePath? then Some(e.pathStatus) else LastPath(events)
    ensures LastTargets(events + [e]) == if e.DecideTargets? then Some(e.cvStatus) else LastTargets(events)
  {
    assert (events + [e])[..|events|] == events;
  }

  /** A tick that is handed over to begins without a decision. */
  lemma NextUndecided(m: Mission, r: Readings, payloadSize: nat)
    requires KnownTick(m.tick)
    ensures var next := TickResult(m, r, payloadSize).1;
            next.Some? ==> (next.value.WaitForTakeoff? ==> next.value.takeoffStatus.Waiting?) &&
                           (next.value.PathValidate? ==> next.value.pathStatus.Undecided?)
  {
    match m.tick {
      case MavUpload(next, _, _) =>
        if next.WaitForTakeoff? {} else if next.FlyWaypoints? {} else if next.FlySearch? {} else {}
      case FlyWaypoints(_) =>
      case FlySearch(_, _) =>
      case AirdropApproach =>
      case ActiveTakeoff =>
      case PathValidate(_) =>
      case WaitForTakeoff(_) =>
      case _ =>
    }
  }

  lemma PrepSpares(m: Mission, r: Readings, payloadSize: nat)
    requires m.tick == AirdropPrep
    ensures var (m', next) := TickResult(m, r, payloadSize);
            && next.Some? && m'.cvStatus == m.cvStatus && m'.aggregator == m.aggregator && m'.triggered == m.triggered
            && m'.mappingDone == m.mappingDone && m'.mav == m.mav && m'.everValidated == m.everValidated
  {
    hide NextAirdrop;
  }

  /** A tick leaves the decisions alone, except that it may use one up. */
  lemma TickUsesDecisions(m: Mission, r: Readings, payloadSize: nat)
    requires KnownTick(m.tick)
    ensures var n := Ticked(m, r, payloadSize);
            && (n.tick.WaitForTakeoff? ==> n.tick == m.tick || n.tick.takeoffStatus.Waiting?)
            && (n.tick.PathValidate? ==> n.tick == m.tick || n.tick.pathStatus.Undecided?)
            && (n.cvStatus == m.cvStatus || n.cvStatus.NoDecision?) && (m.aggregator ==> n.aggregator)
  {
    hide TickResult, KnownTick, Entered;
    var (m', next) := TickResult(m, r, payloadSize);
    NextUndecided(m, r, payloadSize);
    if m.tick == AirdropPrep { PrepSpares(m, r, payloadSize); } else { OthersSpared(m, r, payloadSize); }
    if next.Some? { EnteredChanges(m', next.value, r); }
  }

  lemma {:induction false} DecisionsRecorded(laps: int, events: seq<Event>, payloadSize: nat)
    ensures OnCourse(Play(Launch(laps), events, payloadSize), laps)
    ensures Recorded(Play(Launch(laps), events, payloadSize), events)
    decreases |events|
  {
    hide OnCourse, Happened, Recorded;
    LaunchOnCourse(laps);
    EveryRunOnCourse(Launch(laps), events, payloadSize, laps);
    if events == [] {
      NothingRecorded(laps);
    } else {
      var before, e := events[..|events| - 1], events[|events| - 1];
      assert events == before + [e];
      DecisionsRecorded(laps, before, payloadSize);
      PlayOneMore(Launch(laps), before, e, payloadSize);
      EventRecorded(Play(Launch(laps), before, payloadSize), before, e, payloadSize, laps);
    }
  }

  lemma NothingRecorded(laps: int)
    ensures Recorded(Launch(laps), [])
  {
  }

  lemma EventRecorded(m: Mission, events: seq<Event>, e: Event, payloadSize: nat, laps: int)
    requires OnCourse(m, laps) && Recorded(m, events)
    ensures Recorded(Happened(m, e, payloadSize), events + [e])
  {
    hide Ticked, LapsFit, AirdropsFit, LinksFit, KnownTick, LastTakeoff, LastPath, LastTargets;
    LastOneMore(events, e);
    if e.DoTick? { TickUsesDecisions(m, e.readings, payloadSize); }
  }

  /** The same kind of tick, whatever its fields. */
  predicate SameTick(s: Tick, t: Tick) {
    && s.MissionPrep? == t.MissionPrep? && s.PathGen? == t.PathGen? && s.PathValidate? == t.PathValidate?
    && s.MavUpload? == t.MavUpload? && s.WaitForTakeoff? == t.WaitForTakeoff? && s.Takeoff? == t.Takeoff?
    && s.ActiveTakeoff? == t.ActiveTakeoff? && s.FlyWaypoints? == t.FlyWaypoints? && s.FlySearch? == t.FlySearch?
    && s.CVLoiter? == t.CVLoiter? && s.AirdropPrep? == t.AirdropPrep? && s.AirdropApproach? == t.AirdropApproach?
    && s.ManualLanding? == t.ManualLanding? && s.AutoLanding? == t.AutoLanding?
    && s.MissionDone? == t.MissionDone? && s.Refueling? == t.Refueling?
  }

  /** Why an upload begins; what follows it is fixed then. */
  predicate UploadedBecause(from: Mission, next: Tick, route: Route, geofence: bool, events: seq<Event>, r: Readings) {
    var t := from.tick;
    match route
    case Initial =>
      if geofence then t.PathValidate? && from.mav && LastPath(events) == Some(Accepted) && next.WaitForTakeoff?
      else t.FlyWaypoints? && r.missionFinished && from.lapsRemaining > 0 && next.FlyWaypoints?
    case Coverage => !geofence && t.FlyWaypoints? && r.missionFinished && from.lapsRemaining <= 0 && next.FlySearch?
    case Approach => !geofence && t.AirdropPrep? && |from.selected| < NUM_AIRDROPS && next.AirdropApproach?
  }

  /** Why a tick is entered: the tick it may come from, what was found out there, and what the operator
      decided last. */
  predicate EnteredBecause(from: Mission, to: Tick, events: seq<Event>, r: Readings) {
    var t := from.tick;
    match to
    case MissionPrep => t.ActiveTakeoff? && r.takeoffReady && !(r.takeoffOk && r.startMissionOk)
    case PathGen => (t.MissionPrep? && r.missionCached) || (t.PathValidate? && LastPath(events) == Some(Refused))
    case PathValidate(status) => t.PathGen? && status.Undecided? && r.initPathReady && r.coveragePathReady
    case MavUpload(next, route, geofence) => UploadedBecause(from, next, route, geofence, events, r)
    case WaitForTakeoff(status) => status.Waiting? && Uploaded(from, r) && t.geofence && t.next.WaitForTakeoff?
    case Takeoff => t.WaitForTakeoff? && LastTakeoff(events) == Some(Manual)
    case ActiveTakeoff => t.WaitForTakeoff? && LastTakeoff(events) == Some(Autonomous)
    case FlyWaypoints(_) =>
      || (t.Takeoff? && r.flightModeMission)
      || (t.ActiveTakeoff? && r.takeoffReady && r.takeoffOk && r.startMissionOk)
      || (Uploaded(from, r) && t.route.Initial? && t.next.FlyWaypoints?)
    case FlySearch(_, _) =>
      || (Uploaded(from, r) && t.route.Coverage?)
      || (t.CVLoiter? && LastTargets(events) == Some(Rejected))
    case CVLoiter => t.FlySearch? && t.missionStarted && r.missionFinished
    case AirdropPrep =>
      || ((t.FlySearch? || t.CVLoiter?) && LastTargets(events) == Some(Validated))
      || (t.AirdropApproach? && r.missionFinished && |from.selected| < NUM_AIRDROPS)
    case AirdropApproach => Uploaded(from, r) && t.route.Approach?
    case ManualLanding => t.AirdropApproach? && r.missionFinished && |from.selected| == NUM_AIRDROPS
    case _ => false
  }

  predicate Uploaded(from: Mission, r: Readings)
    ensures Uploaded(from, r) ==> from.tick.MavUpload?
  {
    from.tick.MavUpload? && r.uploadReady && r.uploadOk
  }

  /** On every run, a tick is entered only for its reason: nothing takes off that was not told to, in the
      way it was told to, nothing is uploaded that was not accepted, nothing is dropped unvalidated. */
  lemma EveryTickHasItsReason(laps: int, before: seq<Event>, r: Readings, payloadSize: nat)
    ensures var m := Play(Launch(laps), before, payloadSize); var n := Ticked(m, r, payloadSize);
            !SameTick(m.tick, n.tick) ==> EnteredBecause(m, n.tick, before, r)
  {
    hide Play, LastTakeoff, LastPath, LastTargets, LapsFit, Ticked, EnteredBecause, KnownTick;
    DecisionsRecorded(laps, before, payloadSize);
    var m := Play(Launch(laps), before, payloadSize);
    DroppedCount(m);
    TickHasItsReason(m, before, r, payloadSize);
  }

  lemma TickHasItsReason(m: Mission, events: seq<Event>, r: Readings, payloadSize: nat)
    requires KnownTick(m.tick) && Recorded(m, events) && |m.dropped| == |m.selected| <= NUM_AIRDROPS
    requires m.tick.AirdropPrep? ==> |m.selected| < NUM_AIRDROPS
    ensures var n := Ticked(m, r, payloadSize);
            !SameTick(m.tick, n.tick) ==> EnteredBecause(m, n.tick, events, r)
  {
    hide TickResult, KnownTick, Entered, EnteredBecause, Recorded, SameTick;
    var (m', next) := TickResult(m, r, payloadSize);
    if next.Some? {
      NextHasItsReason(m, events, r, payloadSize);
      EnteredChanges(m', next.value, r);
      SearchIsSearch(m, m.tick, next.value, Entered(m', next.value, r).tick, events, r);
    } else {
      StaysTheSame(m, r, payloadSize);
    }
  }

  /** What FlySearch does when it is entered makes no difference. */
  lemma SearchIsSearch(from: Mission, s: Tick, t: Tick, t': Tick, events: seq<Event>, r: Readings)
    requires t' == t || (t'.FlySearch? && t.FlySearch?)
    ensures SameTick(s, t) == SameTick(s, t')
    ensures EnteredBecause(from, t, events, r) == EnteredBecause(from, t', events, r)
  {
    hide LastTakeoff, LastPath, LastTargets, UploadedBecause, Uploaded;
  }

  lemma StaysTheSame(m: Mission, r: Readings, payloadSize: nat)
    requires TickResult(m, r, payloadSize).1.None?
    ensures SameTick(m.tick, TickResult(m, r, payloadSize).0.tick)
  {
    hide TickResult;
    if m.tick == AirdropPrep { PrepSpares(m, r, payloadSize); } else { OthersSpared(m, r, payloadSize); }
  }

  lemma NextHasItsReason(m: Mission, events: seq<Event>, r: Readings, payloadSize: nat)
    requires KnownTick(m.tick) && Recorded(m, events) && |m.dropped| == |m.selected| <= NUM_AIRDROPS
    requires m.tick.AirdropPrep? ==> |m.selected| < NUM_AIRDROPS
    ensures var next := TickResult(m, r, payloadSize).1;
            next.Some? && !SameTick(m.tick, next.value) ==> EnteredBecause(m, next.value, events, r)
  {
    hide LastTakeoff, LastPath, LastTargets;
    match m.tick {
      case MavUpload(next, _, _) =>
        if next.WaitForTakeoff? {} else if next.FlyWaypoints? {} else if next.FlySearch? {} else {}
      case FlyWaypoints(_) =>
      case FlySearch(_, _) =>
      case AirdropApproach =>
      case ActiveTakeoff =>
      case PathValidate(_) =>
      case WaitForTakeoff(_) =>
      case _ =>
    }
  }

  /** What a tick waits for. */
  predicate Over(m: Mission, r: Readings) {
    match m.tick
    case MissionPrep => r.missionCached
    case PathGen => r.initPathReady && r.coveragePathReady
    case PathValidate(status) => status.Refused? || (status.Accepted? && m.mav)
    case MavUpload(_, _, _) => r.uploadReady && r.uploadOk
    case WaitForTakeoff(status) => !status.Waiting?
    case Takeoff => r.flightModeMission
    case ActiveTakeoff => r.takeoffReady
    case FlyWaypoints(_) =>
      r.missionFinished && (m.lapsRemaining > 0 ==> r.pathReadyAtPoll < PATH_WAIT_MS / PATH_POLL_MS)
    case FlySearch(started, _) => m.cvStatus.Validated? || (started && r.missionFinished)
    case CVLoiter => !m.cvStatus.NoDecision?
    case AirdropPrep => true
    case AirdropApproach => r.missionFinished
    case _ => false
  }

  /** A tick is left exactly when what it waits for is there. */
  lemma LeftExactlyWhenOver(m: Mission, r: Readings, payloadSize: nat)
    requires KnownTick(m.tick)
    ensures !SameTick(m.tick, Ticked(m, r, payloadSize).tick) <==> Over(m, r)
  {
    hide TickResult, KnownTick, Entered, SameTick, Over;
    var (m', next) := TickResult(m, r, payloadSize);
    NextExactlyWhenOver(m, r, payloadSize);
    if next.Some? {
      EnteredChanges(m', next.value, r);
      SearchIsSearch(m, m.tick, next.value, Entered(m', next.value, r).tick, [], r);
    } else {
      StaysTheSame(m, r, payloadSize);
    }
  }

  lemma NextExactlyWhenOver(m: Mission, r: Readings, payloadSize: nat)
    requires KnownTick(m.tick)
    ensures var next := TickResult(m, r, payloadSize).1;
            next.Some? && !SameTick(m.tick, next.value) <==> Over(m, r)
  {
    match m.tick {
      case MavUpload(next, _, _) =>
        if next.WaitForTakeoff? {} else if next.FlyWaypoints? {} else if next.FlySearch? {} else {}
      case FlyWaypoints(_) =>
      case FlySearch(_, _) =>
      case AirdropApproach =>
      case ActiveTakeoff =>
      case PathValidate(_) =>
      case WaitForTakeoff(_) =>
      case _ =>
    }
  }

  /** And a decision made while it is waited for is obeyed by the very next tick. */
  lemma TakeoffIsObeyed(m: Mission, r: Readings, payloadSize: nat)
    requires m.tick.WaitForTakeoff?
    ensures Play(m, [DecideTakeoff(Manual), DoTick(r)], payloadSize).tick == Takeoff
    ensures Play(m, [DecideTakeoff(Autonomous), DoTick(r)], payloadSize).tick == ActiveTakeoff
    ensures Play(m, [DecideTakeoff(Waiting), DoTick(r)], payloadSize).tick == WaitForTakeoff(Waiting)
  {
    hide Play;
    forall e: Event { TwoEvents(m, e, DoTick(r), payloadSize); }
  }

  lemma PathIsObeyed(m: Mission, r: Readings, payloadSize: nat)
    requires m.tick.PathValidate?
    ensures Play(m, [DecidePath(Refused), DoTick(r)], payloadSize).tick == PathGen
    ensures Play(m, [DecidePath(Accepted), DoTick(r)], payloadSize).tick ==
            if m.mav then MavUpload(WaitForTakeoff(Waiting), Initial, true) else PathValidate(Accepted)
    ensures Play(m, [DecidePath(Undecided), DoTick(r)], payloadSize).tick == PathValidate(Undecided)
  {
    hide Play;
    forall e: Event { TwoEvents(m, e, DoTick(r), payloadSize); }
  }

  lemma TargetsAreObeyed(m: Mission, r: Readings, payloadSize: nat)
    requires m.tick.CVLoiter? && m.aggregator
    ensures Play(m, [DecideTargets(Validated), DoTick(r)], payloadSize).tick == AirdropPrep
    ensures Play(m, [DecideTargets(Rejected), DoTick(r)], payloadSize).tick.FlySearch?
    ensures Play(m, [DecideTargets(NoDecision), DoTick(r)], payloadSize).tick == CVLoiter
  {
    hide Play;
    forall e: Event { TwoEvents(m, e, DoTick(r), payloadSize); }
  }

  lemma TwoEvents(m: Mission, e: Event, f: Event, payloadSize: nat)
    ensures Play(m, [e, f], payloadSize) == Happened(Happened(m, e, payloadSize), f, payloadSize)
  {
    hide Happened;
    assert [e, f][1..] == [f] && [f][1..] == [];
    assert Play(m, [e, f], payloadSize) == Play(Happened(m, e, payloadSize), [f], payloadSize);
    assert Play(Happened(m, e, payloadSize), [f], payloadSize) ==
           Play(Happened(Happened(m, e, payloadSize), f, payloadSize), [], payloadSize);
  }

  /** Entering the search starts it; if that failed, each tick tries again, and from then on the tick
      follows the waypoints. */
  lemma SearchIsStartedOnce(m: Mission, r: Readings, payloadSize: nat)
    ensures var n := Ticked(m, r, payloadSize);
            n.tick.FlySearch? ==>
              && n.tick.missionStarted == ((m.tick.FlySearch? && m.tick.missionStarted) || r.startMissionOk)
              && (m.tick.FlySearch? && m.tick.missionStarted ==> n.tick.currItem == r.currWaypoint)
  {
    hide Entered, TickResult;
    var (m', next) := TickResult(m, r, payloadSize);
    if next.Some? { SearchEntered(m', next.value, r); }
    if m.tick.FlySearch? {
      SearchTick(m, r, payloadSize);
    } else if next.None? {
      StaysTheSame(m, r, payloadSize);
    }
  }

  lemma SearchTick(m: Mission, r: Readings, payloadSize: nat)
    requires m.tick.FlySearch?
    ensures var (m', next) := TickResult(m, r, payloadSize);
            if next.Some? then !next.value.FlySearch?
            else m'.tick == if m.tick.missionStarted then FlySearch(true, r.currWaypoint)
                            else FlySearch(r.startMissionOk, m.tick.currItem)
  {
  }

  lemma SearchEntered(m: Mission, t: Tick, r: Readings)
    ensures Entered(m, t, r).tick.FlySearch? <==> t.FlySearch?
    ensures t.FlySearch? ==> Entered(m, t, r).tick == FlySearch(r.startMissionOk, t.currItem)
  {
  }

  /** What a tick does to the rest of the shared state: FlySearch uses a validation up; preparing the mission
      brings the aggregator and starts mapping afresh, which is done on landing after both airdrops. */
  lemma SharedStateChanges(m: Mission, r: Readings, payloadSize: nat)
    ensures var n := Ticked(m, r, payloadSize);
            && n.cvStatus == (if m.tick.FlySearch? && m.cvStatus.Validated? then NoDecision else m.cvStatus)
            && n.aggregator == (m.aggregator || (m.tick.MissionPrep? && r.missionCached))
            && n.mappingDone == (if m.tick.MissionPrep? && r.missionCached then false
                                 else m.mappingDone || (m.tick.ManualLanding? && |m.dropped| >= NUM_AIRDROPS))
            && n.mav == m.mav && n.everValidated == m.everValidated
  {
    hide Entered, TickResult, NextAirdrop;
    var (m', next) := TickResult(m, r, payloadSize);
    if next.Some? { EnteredChanges(m', next.value, r); }
    MostTouchNothing(m, r, payloadSize);
    if m.tick.AirdropPrep? {
      PrepSpares(m, r, payloadSize);
    } else if !TouchesNothing(m.tick) {
      FewChange(m, r, payloadSize);
    }
  }

  lemma FewChange(m: Mission, r: Readings, payloadSize: nat)
    requires m.tick.FlySearch? || m.tick.AirdropApproach? || m.tick.MissionPrep? || m.tick.ManualLanding?
    ensures var n := TickResult(m, r, payloadSize).0;
            && n.cvStatus == (if m.tick.FlySearch? && m.cvStatus.Validated? then NoDecision else m.cvStatus)
            && n.aggregator == (m.aggregator || (m.tick.MissionPrep? && r.missionCached))
            && n.mappingDone == (if m.tick.MissionPrep? && r.missionCached then false
                                 else m.mappingDone || (m.tick.ManualLanding? && |m.dropped| >= NUM_AIRDROPS))
            && n.mav == m.mav && n.everValidated == m.everValidated
  {
    match m.tick {
      case FlySearch(_, _) =>
      case AirdropApproach =>
      case MissionPrep =>
      case ManualLanding =>
    }
  }

  // ----- the relays

  /** Waters first, then beacons. */
  predicate WatersFirst(s: seq<Airdrop>) {
    forall i, j | 0 <= i < j < |s| :: s[j] == Water ==> s[i] == Water
  }

  /** On every run, an airdrop is triggered exactly when the final waypoint is reached on its approach, and
      it is the one that was selected last; so the first airdrop is never triggered after the second. */
  lemma TriggeredWhenThere(laps: int, before: seq<Event>, e: Event, payloadSize: nat)
    ensures var m := Play(Launch(laps), before, payloadSize); var n := Happened(m, e, payloadSize);
            if e.DoTick? && e.readings.atFinalWaypoint && m.tick.AirdropApproach?
            then m.selected != [] && n.triggered == m.triggered + [m.selected[|m.selected| - 1]]
            else n.triggered == m.triggered
  {
    hide Ticked, LapsFit, LinksFit, KnownTick, AirdropOrder;
    LaunchOnCourse(laps);
    EveryRunOnCourse(Launch(laps), before, payloadSize, laps);
    if e.DoTick? { TickTriggers(Play(Launch(laps), before, payloadSize), e.readings, payloadSize); }
  }

  lemma TickTriggers(m: Mission, r: Readings, payloadSize: nat)
    ensures Ticked(m, r, payloadSize).triggered ==
            if m.tick.AirdropApproach? && r.atFinalWaypoint && m.nextAirdrop.Some?
            then m.triggered + [m.nextAirdrop.value] else m.triggered
  {
    hide Entered, TickResult;
    var (m', next) := TickResult(m, r, payloadSize);
    if next.Some? { EnteredChanges(m', next.value, r); }
    MostTouchNothing(m, r, payloadSize);
    if m.tick.AirdropApproach? {
      ApproachTriggers(m, r, payloadSize);
    } else if m.tick.AirdropPrep? {
      PrepSpares(m, r, payloadSize);
    } else if !TouchesNothing(m.tick) {
      OthersTriggerNothing(m, r, payloadSize);
    }
  }

  lemma ApproachTriggers(m: Mission, r: Readings, payloadSize: nat)
    requires m.tick.AirdropApproach?
    ensures TickResult(m, r, payloadSize).0.triggered ==
            if r.atFinalWaypoint && m.nextAirdrop.Some? then m.triggered + [m.nextAirdrop.value] else m.triggered
  {
  }

  lemma OthersTriggerNothing(m: Mission, r: Readings, payloadSize: nat)
    requires m.tick.MissionPrep? || m.tick.FlySearch? || m.tick.ManualLanding?
    ensures TickResult(m, r, payloadSize).0.triggered == m.triggered
  {
    if m.tick.FlySearch? {} else if m.tick.MissionPrep? {} else {}
  }

  lemma {:induction false} TriggeredInOrder(laps: int, events: seq<Event>, payloadSize: nat)
    ensures WatersFirst(Play(Launch(laps), events, payloadSize).triggered)
    decreases |events|
  {
    hide Happened, OnCourse, Play;
    if events == [] {
      assert Play(Launch(laps), [], payloadSize) == Launch(laps) by { NothingPlayed(Launch(laps), payloadSize); }
    } else {
      var before, e := events[..|events| - 1], events[|events| - 1];
      assert events == before + [e];
      TriggeredInOrder(laps, before, payloadSize);
      TriggeredWhenThere(laps, before, e, payloadSize);
      PlayOneMore(Launch(laps), before, e, payloadSize);
      TriggeredAmongSelected(laps, before, payloadSize);
      var m := Play(Launch(laps), before, payloadSize);
      if m.selected != [] { OneMoreInOrder(m.triggered, m.selected[|m.selected| - 1]); }
    }
  }

  lemma OneMoreInOrder(s: seq<Airdrop>, a: Airdrop)
    requires WatersFirst(s) && (a == Water ==> forall x | x in s :: x == Water)
    ensures WatersFirst(s + [a])
  {
    var t := s + [a];
    forall i, j | 0 <= i < j < |t| && t[j] == Water
      ensures t[i] == Water
    {
      if j < |s| { assert s[j] == Water; } else { assert s[i] in s; }
    }
  }

  lemma NothingPlayed(m: Mission, payloadSize: nat)
    ensures Play(m, [], payloadSize) == m
  {
  }

  lemma TriggeredAmongSelected(laps: int, events: seq<Event>, payloadSize: nat)
    ensures var m := Play(Launch(laps), events, payloadSize);
            m.selected != [] && m.selected[|m.selected| - 1] == Water ==> forall a | a in m.triggered :: a == Water
  {
    AirdropsAreSelectedOnce(laps, events, [], payloadSize);
  }

  // ----- the object itself

  class MissionState {
    const payloadSize: nat
    var tick: Tick
    var lapsRemaining: int
    var cvStatus: CVStatus
    var dropped: set<Airdrop>
    var nextAirdrop: Option<Airdrop>
    var mav: bool
    var aggregator: bool
    var mappingDone: bool

    ghost var lapsFlown: nat
    ghost var selected: seq<Airdrop>
    ghost var triggered: seq<Airdrop>
    ghost var prepExits: nat
    ghost var everValidated: bool

    ghost function View(): Mission
      reads this
    {
      Mission(tick, lapsRemaining, cvStatus, dropped, nextAirdrop, mav, aggregator, mappingDone,
              lapsFlown, selected, triggered, prepExits, everValidated)
    }

    constructor (laps: int, payloadSize: nat)
      ensures View() == Launch(laps) && this.payloadSize == payloadSize
    {
      this.payloadSize := payloadSize;
      tick, lapsRemaining, cvStatus, dropped, nextAirdrop := MissionPrep, laps, NoDecision, {}, None;
      mav, aggregator, mappingDone := false, false, false;
      lapsFlown, selected, triggered, prepExits, everValidated := 0, [], [], 0, false;
    }

    method SetTick(newTick: Tick, r: Readings)
      modifies this
      ensures View() == Entered(old(View()), newTick, r)
    {
      tick := newTick;
      match newTick {
        case FlyWaypoints(_) =>
          lapsRemaining := lapsRemaining - 1;
          lapsFlown := lapsFlown + 1;
        case FlySearch(_, item) =>
          tick := FlySearch(r.startMissionOk, item);
        case _ =>
      }
    }

    method MarkAirdropAsDropped(airdrop: Airdrop)
      modifies this`dropped
      ensures dropped == old(dropped) + {airdrop}
    {
      dropped := dropped + {airdrop};
    }

    method TickFlyWaypoints(r: Readings) returns (next: Option<Tick>)
      requires tick.FlyWaypoints?
      ensures (View(), next) == TickResult(View(), r, payloadSize)
    {
      if !r.missionFinished {
        return None;
      }
      if lapsRemaining > 0 {
        var inTime := AwaitPath(r.pathReadyAtPoll);
        if !inTime {
          return None;
        }
        return Some(MavUpload(FlyWaypoints(FreshSearch()), Initial, false));
      }
      return Some(MavUpload(FreshSearch(), Coverage, false));
    }

    method TickFlySearch(r: Readings) returns (next: Option<Tick>)
      requires tick.FlySearch?
      modifies this
      ensures (View(), next) == TickResult(old(View()), r, payloadSize)
    {
      if cvStatus.Validated? {
        cvStatus := NoDecision;
        return Some(AirdropPrep);
      }
      if !tick.missionStarted {
        tick := FlySearch(r.startMissionOk, tick.currItem);
        return None;
      }
      if r.missionFinished {
        return Some(CVLoiter);
      }
      if tick.currItem != r.currWaypoint {
        tick := FlySearch(tick.missionStarted, r.currWaypoint);
      }
      return None;
    }

    /** Picks the first airdrop not dropped yet, in the fixed order. */
    method PickAirdrop() returns (next: Airdrop)
      ensures next == NextAirdrop(dropped)
    {
      next := Water;
      var order := [Water, Beacon];
      for i := 0 to |order|
        invariant next == Water && forall j | 0 <= j < i :: order[j] in dropped
      {
        if order[i] in dropped {
          continue;
        }
        assert i == 1 ==> order[0] in dropped;
        return order[i];
      }
      assert order[0] in dropped && order[1] in dropped;
    }

    method TickAirdropPrep() returns (next: Option<Tick>)
      requires tick.AirdropPrep?
      modifies this
      ensures forall r :: (View(), next) == TickResult(old(View()), r, payloadSize)
    {
      prepExits := prepExits + 1;
      if |dropped| >= NUM_AIRDROPS {
        return Some(ManualLanding);
      }
      var airdrop := PickAirdrop();
      MarkAirdropAsDropped(airdrop);
      selected := selected + [airdrop];
      nextAirdrop := Some(airdrop);
      return Some(MavUpload(AirdropApproach, Approach, false));
    }

    method TickAirdropApproach(r: Readings) returns (next: Option<Tick>)
      requires tick.AirdropApproach?
      modifies this
      ensures (View(), next) == TickResult(old(View()), r, payloadSize)
    {
      if r.atFinalWaypoint && nextAirdrop.Some? {
        triggered := triggered + [nextAirdrop.value];
      }
      if r.missionFinished {
        if |dropped| >= NUM_AIRDROPS {
          return Some(ManualLanding);
        }
        return Some(AirdropPrep);
      }
      return None;
    }

    /** The remaining ticks, each a branch or two. */
    method TickOther(r: Readings) returns (next: Option<Tick>)
      requires !tick.FlyWaypoints? && !tick.FlySearch? && !tick.AirdropPrep? && !tick.AirdropApproach?
      modifies this
      ensures (View(), next) == TickResult(old(View()), r, payloadSize)
    {
      next := None;
      match tick {
        case MissionPrep =>
          if r.missionCached {
            aggregator, mappingDone := true, false;
            next := Some(PathGen);
          }
        case PathGen =>
          if r.initPathReady && r.coveragePathReady { next := Some(PathValidate(Undecided)); }
        case PathValidate(status) =>
          if status.Accepted? {
            if mav { next := Some(MavUpload(WaitForTakeoff(Waiting), Initial, true)); }
          } else if status.Refused? {
            next := Some(PathGen);
          }
        case MavUpload(follow, route, geofence) =>
          if r.uploadReady {
            next := Some(if r.uploadOk then follow else MavUpload(follow, route, geofence));
          }
        case WaitForTakeoff(status) =>
          if status.Manual? { next := Some(Takeoff); } else if status.Autonomous? { next := Some(ActiveTakeoff); }
        case Takeoff =>
          if r.flightModeMission { next := Some(FlyWaypoints(MavUpload(FreshSearch(), Coverage, false))); }
        case ActiveTakeoff =>
          if r.takeoffReady {
            if !r.takeoffOk || !r.startMissionOk {
              next := Some(MissionPrep);
            } else if |dropped| >= payloadSize {
              next := Some(FlyWaypoints(AirdropPrep));
            } else {
              next := Some(FlyWaypoints(MavUpload(FreshSearch(), Coverage, false)));
            }
          }
        case CVLoiter =>
          if cvStatus.Validated? { next := Some(AirdropPrep); }
          else if cvStatus.Rejected? { next := Some(FreshSearch()); }
        case ManualLanding =>
          if |dropped| >= NUM_AIRDROPS && !mappingDone { mappingDone := true; }
        case Refueling =>
          if r.armed { next := Some(MavUpload(WaitForTakeoff(Waiting), Initial, false)); }
        case _ =>
      }
    }

    method DoTick(r: Readings)
      modifies this
      ensures View() == Happened(old(View()), Event.DoTick(r), payloadSize)
    {
      var next;
      if tick.FlyWaypoints? {
        next := TickFlyWaypoints(r);
      } else if tick.FlySearch? {
        next := TickFlySearch(r);
      } else if tick.AirdropPrep? {
        next := TickAirdropPrep();
        assert (View(), next) == TickResult(old(View()), r, payloadSize);
      } else if tick.AirdropApproach? {
        next := TickAirdropApproach(r);
      } else {
        next := TickOther(r);
      }
      if next.Some? {
        SetTick(next.value, r);
      }
    }

    method SetPathStatus(status: PathStatus)
      modifies this`tick
      ensures View() == Happened(old(View()), DecidePath(status), payloadSize)
    {
      if tick.PathValidate? {
        tick := PathValidate(status);
      }
    }

    method SetTakeoffStatus(status: TakeoffStatus)
      modifies this`tick
      ensures View() == Happened(old(View()), DecideTakeoff(status), payloadSize)
    {
      if tick.WaitForTakeoff? {
        tick := WaitForTakeoff(status);
      }
    }

    method SetCVStatus(status: CVStatus)
      modifies this`cvStatus, this`everValidated
      ensures View() == Happened(old(View()), DecideTargets(status), payloadSize)
    {
      if aggregator {
        cvStatus := status;
        everValidated := everValidated || status.Validated?;
      }
    }

    method SetMav()
      modifies this`mav
      ensures View() == Happened(old(View()), ConnectMav, payloadSize)
    {
      mav := true;
    }
  }
}
