/**
 * The discrete-event CPU simulation (target_code/event_driven_simulation.py).
 *
 * Events carry a time, a type name and optional data.  A simulator holds the
 * clock, a priority queue of pending events, counters, the CPU's status and
 * a double-ended queue of waiting tasks.  Processing an event moves the
 * clock to it and updates the CPU and the task queue; the run loop pops the
 * earliest event until the queue empties or the clock reaches the end time.
 *
 * The random draws that change state (whether a busy CPU lets a task jump
 * the queue) are parameters; draws that only feed floating-point metrics or
 * empty loops are left out.
 */
module EventSimulation {
  import opened Wrappers
  import opened Sequences

  // ---------------------------------------------------------------------
  // Events and their order
  // ---------------------------------------------------------------------

  /** The entries an event's data dictionary may hold. */
  datatype EventData = EventData(
    taskId: Option<string>,
    processingTime: Option<real>,
    priority: Option<int>,
    startTime: Option<real>,
    resource: Option<string>,
    repairDuration: Option<real>)

  datatype Event = Event(time: real, eventType: string, data: EventData)

  /** `dict.get(key, default)`. */
  function GetOr<T>(o: Option<T>, default: T): T
  {
    if o.Some? then o.value else default
  }

  /** Python's `<` on strings: lexicographic by character code. */
  predicate StringLess(a: string, b: string)
    decreases |a|
  {
    if a == [] then b != []
    else if b == [] then false
    else if a[0] != b[0] then a[0] < b[0]
    else StringLess(a[1..], b[1..])
  }

  lemma {:induction false} StringLessIrreflexive(a: string)
    ensures !StringLess(a, a)
    decreases |a|
  {
    if a != [] {
      StringLessIrreflexive(a[1..]);
    }
  }

  lemma {:induction false} StringLessTransitive(a: string, b: string, c: string)
    requires StringLess(a, b) && StringLess(b, c)
    ensures StringLess(a, c)
    decreases |a|
  {
    if a != [] && b != [] && c != [] && a[0] == b[0] && b[0] == c[0] {
      StringLessTransitive(a[1..], b[1..], c[1..]);
    }
  }

  /** Two different strings are always ordered one way or the other. */
  lemma {:induction false} StringLessTotal(a: string, b: string)
    requires a != b
    ensures StringLess(a, b) || StringLess(b, a)
    decreases |a|
  {
    if a != [] && b != [] && a[0] == b[0] {
      assert a == [a[0]] + a[1..] && b == [b[0]] + b[1..];
      StringLessTotal(a[1..], b[1..]);
    }
  }

  /** `SimulationEvent.__lt__`: by time, then by type name. */
  predicate EventLess(a: Event, b: Event)
  {
    if a.time != b.time then a.time < b.time else StringLess(a.eventType, b.eventType)
  }

  /**
   * The event order is a strict weak order, the property a binary heap
   * relies on: irreflexive, transitive, and events that are not ordered
   * either way agree on time and type.
   */
  lemma EventLessIsStrictWeakOrder(a: Event, b: Event, c: Event)
    ensures !EventLess(a, a)
    ensures EventLess(a, b) && EventLess(b, c) ==> EventLess(a, c)
    ensures !EventLess(a, b) && !EventLess(b, a) ==> a.time == b.time && a.eventType == b.eventType
  {
    StringLessIrreflexive(a.eventType);
    if EventLess(a, b) && EventLess(b, c) && a.time == b.time && b.time == c.time {
      StringLessTransitive(a.eventType, b.eventType, c.eventType);
    }
    if a.eventType != b.eventType {
      StringLessTotal(a.eventType, b.eventType);
    }
  }

  /** Not being later is transitive too. */
  lemma EventNotLessTransitive(a: Event, b: Event, c: Event)
    requires !EventLess(a, b) && !EventLess(b, c)
    ensures !EventLess(a, c)
  {
    EventLessIsStrictWeakOrder(a, b, c);
    EventLessIsStrictWeakOrder(c, a, b);
    EventLessIsStrictWeakOrder(b, c, a);
    if a.time == c.time && StringLess(a.eventType, c.eventType) {
      if b.time == a.time {
        if a.eventType != b.eventType {
          StringLessTotal(a.eventType, b.eventType);
        }
        if b.eventType != c.eventType {
          StringLessTotal(b.eventType, c.eventType);
        }
        if StringLess(b.eventType, a.eventType) && StringLess(c.eventType, b.eventType) {
          StringLessTransitive(c.eventType, b.eventType, a.eventType);
          StringLessTransitive(a.eventType, c.eventType, a.eventType);
          StringLessIrreflexive(a.eventType);
        } else if StringLess(b.eventType, a.eventType) {
          StringLessTransitive(a.eventType, c.eventType, a.eventType);
          StringLessIrreflexive(a.eventType);
        } else if StringLess(c.eventType, b.eventType) {
          StringLessTransitive(a.eventType, c.eventType, b.eventType);
        }
      }
    }
  }

  /** Where `heappop` takes from: the first event no other event precedes. */
  function MinIndex(q: seq<Event>): (j: nat)
    requires q != []
    ensures j < |q|
    ensures forall i :: 0 <= i < |q| ==> !EventLess(q[i], q[j])
    decreases |q|
  {
    if |q| == 1 then
      EventLessIsStrictWeakOrder(q[0], q[0], q[0]);
      0
    else
      var j := MinIndex(q[1..]);
      assert forall i :: 1 <= i < |q| ==> !EventLess(q[i], q[1 + j]) by {
        assert forall i :: 1 <= i < |q| ==> q[i] == q[1..][i - 1];
      }
      if EventLess(q[1 + j], q[0]) then
        forall i | 0 <= i < |q|
          ensures !EventLess(q[i], q[1 + j])
        {
          if i == 0 {
            EventLessIsStrictWeakOrder(q[0], q[1 + j], q[0]);
          }
        }
        1 + j
      else
        forall i | 0 <= i < |q|
          ensures !EventLess(q[i], q[0])
        {
          if i == 0 {
            EventLessIsStrictWeakOrder(q[0], q[0], q[0]);
          } else {
            EventNotLessTransitive(q[i], q[1 + j], q[0]);
          }
        }
        0
  }

  // ---------------------------------------------------------------------
  // Simulator state and one step
  // ---------------------------------------------------------------------

  /** The CPU entry of `resource_status`. */
  datatype Cpu = Idle | Busy | Failed

  /** A waiting task in `active_tasks`. */
  datatype Task = Task(taskId: Option<string>, arrival: real, priority: int, processingTime: real)

  datatype SimState = SimState(
    currentTime: real,
    queue: seq<Event>,
    eventsProcessed: nat,
    errorsOccurred: nat,
    cpu: Cpu,
    activeTasks: seq<Task>)

  /** The completion event scheduled when a task starts running. */
  function Completion(finish: real, taskId: Option<string>, start: real): Event
  {
    Event(finish, "TaskCompletion", EventData(taskId, None, None, Some(start), None, None))
  }

  /** The repair event scheduled after a CPU failure. */
  function Repair(time: real): Event
  {
    Event(time, "ResourceRepair", EventData(None, None, None, None, Some("CPU"), None))
  }

  /** Take the front waiting task, schedule its completion, mark the CPU busy. */
  function Dispatch(s: SimState): SimState
    requires s.activeTasks != []
  {
    var t := s.activeTasks[0];
    s.(activeTasks := s.activeTasks[1..],
       queue := s.queue + [Completion(s.currentTime + t.processingTime, t.taskId, s.currentTime)],
       cpu := Busy)
  }

  /** The `TaskArrival` branch: run at once on an idle CPU, otherwise wait. */
  function OnArrival(s: SimState, e: Event, preempt: bool): (r: SimState)
    ensures r.currentTime == s.currentTime && r.eventsProcessed == s.eventsProcessed
    ensures |s.queue| <= |r.queue| <= |s.queue| + 1 && r.queue[..|s.queue|] == s.queue
  {
    var processingTime := GetOr(e.data.processingTime, 1.0);
    var priority := GetOr(e.data.priority, 0);
    var task := Task(e.data.taskId, s.currentTime, priority, processingTime);
    if s.cpu == Idle then
      s.(cpu := Busy,
         queue := s.queue + [Completion(s.currentTime + processingTime, e.data.taskId, s.currentTime)])
    else if s.cpu == Busy && priority > 0 && preempt then
      s.(activeTasks := [task] + s.activeTasks, errorsOccurred := s.errorsOccurred + 1)
    else
      s.(activeTasks := s.activeTasks + [task])
  }

  /** The `TaskCompletion` branch: free the CPU and start the front waiting task. */
  function OnCompletion(s: SimState): (r: SimState)
    ensures r.currentTime == s.currentTime && r.eventsProcessed == s.eventsProcessed
    ensures |s.queue| <= |r.queue| <= |s.queue| + 1 && r.queue[..|s.queue|] == s.queue
  {
    var s1 := s.(cpu := Idle);
    if s1.activeTasks == [] then s1
    else
      var t := s1.activeTasks[0];
      var s2 := Dispatch(s1);
      if t.priority > 3 && s1.currentTime - t.arrival > 1.0 then s2.(errorsOccurred := s2.errorsOccurred + 1)
      else s2
  }

  /** The `ResourceFailure` branch: count an error; a CPU failure schedules its repair. */
  function OnFailure(s: SimState, e: Event): (r: SimState)
    ensures r.currentTime == s.currentTime && r.eventsProcessed == s.eventsProcessed
    ensures |s.queue| <= |r.queue| <= |s.queue| + 1 && r.queue[..|s.queue|] == s.queue
  {
    var s1 := s.(errorsOccurred := s.errorsOccurred + 1);
    if e.data.resource == Some("CPU") then
      s1.(cpu := Failed, queue := s1.queue + [Repair(s1.currentTime + GetOr(e.data.repairDuration, 5.0))])
    else s1
  }

  /** The `ResourceRepair` branch: a repaired CPU is idle and takes the front waiting task. */
  function OnRepair(s: SimState, e: Event): (r: SimState)
    ensures r.currentTime == s.currentTime && r.eventsProcessed == s.eventsProcessed
    ensures |s.queue| <= |r.queue| <= |s.queue| + 1 && r.queue[..|s.queue|] == s.queue
  {
    var s1 := if e.data.resource == Some("CPU") then s.(cpu := Idle) else s;
    if s1.activeTasks != [] && s1.cpu == Idle then Dispatch(s1) else s1
  }

  /**
   * `process_event` on a state: the clock moves to the event and the
   * processed-event counter goes up by one, then the event type decides.
   * `preempt` is the outcome of the draw that lets a positive-priority task
   * jump to the front of the queue of a busy CPU.
   */
  function Step(s: SimState, e: Event, preempt: bool): (r: SimState)
    ensures r.currentTime == e.time
    ensures r.eventsProcessed == s.eventsProcessed + 1
    ensures r.errorsOccurred == s.errorsOccurred || r.errorsOccurred == s.errorsOccurred + 1
    ensures |s.queue| <= |r.queue| <= |s.queue| + 1 && r.queue[..|s.queue|] == s.queue
  {
    var s0 := s.(currentTime := e.time, eventsProcessed := s.eventsProcessed + 1);
    if e.eventType == "TaskArrival" then OnArrival(s0, e, preempt)
    else if e.eventType == "TaskCompletion" then OnCompletion(s0)
    else if e.eventType == "ResourceFailure" then OnFailure(s0, e)
    else if e.eventType == "ResourceRepair" then OnRepair(s0, e)
    else s0.(errorsOccurred := s0.errorsOccurred + 1)
  }

  /** A task arriving at an idle CPU runs at once; nothing joins the waiting queue. */
  lemma ArrivalAtIdleCpu(s: SimState, e: Event, preempt: bool)
    requires e.eventType == "TaskArrival" && s.cpu == Idle
    ensures var r := Step(s, e, preempt);
      r.cpu == Busy && r.activeTasks == s.activeTasks && r.errorsOccurred == s.errorsOccurred &&
      r.queue == s.queue + [Completion(e.time + GetOr(e.data.processingTime, 1.0), e.data.taskId, e.time)]
  {
  }

  /**
   * A task arriving at a CPU that is not idle waits: at the front only when
   * the CPU is busy, the priority is positive and the draw says preempt
   * (which counts as an error), otherwise at the back.
   */
  lemma ArrivalAtOccupiedCpu(s: SimState, e: Event, preempt: bool)
    requires e.eventType == "TaskArrival" && s.cpu != Idle
    ensures var r := Step(s, e, preempt);
      var task := Task(e.data.taskId, e.time, GetOr(e.data.priority, 0), GetOr(e.data.processingTime, 1.0));
      var jumps := s.cpu == Busy && GetOr(e.data.priority, 0) > 0 && preempt;
      r.cpu == s.cpu && r.queue == s.queue && |r.activeTasks| == |s.activeTasks| + 1 &&
      (jumps ==> r.activeTasks == [task] + s.activeTasks && r.errorsOccurred == s.errorsOccurred + 1) &&
      (!jumps ==> r.activeTasks == s.activeTasks + [task] && r.errorsOccurred == s.errorsOccurred)
  {
  }

  /**
   * A completion frees the CPU, even a failed one; if a task is waiting the
   * front one starts at once, and it counts as an error when its priority
   * is above 3 and it waited more than 1.0.
   */
  lemma CompletionFreesCpu(s: SimState, e: Event, preempt: bool)
    requires e.eventType == "TaskCompletion"
    ensures var r := Step(s, e, preempt);
      (s.activeTasks == [] ==>
         (r.cpu == Idle && r.queue == s.queue && r.activeTasks == [] && r.errorsOccurred == s.errorsOccurred)) &&
      (s.activeTasks != [] ==>
         var t := s.activeTasks[0];
         r.cpu == Busy && r.activeTasks == s.activeTasks[1..] &&
         r.queue == s.queue + [Completion(e.time + t.processingTime, t.taskId, e.time)] &&
         r.errorsOccurred == s.errorsOccurred + (if t.priority > 3 && e.time - t.arrival > 1.0 then 1 else 0))
  {
  }

  /** A failure always counts as an error; a CPU failure also schedules the repair. */
  lemma FailureSchedulesRepair(s: SimState, e: Event, preempt: bool)
    requires e.eventType == "ResourceFailure"
    ensures var r := Step(s, e, preempt);
      r.errorsOccurred == s.errorsOccurred + 1 && r.activeTasks == s.activeTasks &&
      (e.data.resource == Some("CPU") ==>
         r.cpu == Failed && r.queue == s.queue + [Repair(e.time + GetOr(e.data.repairDuration, 5.0))]) &&
      (e.data.resource != Some("CPU") ==> r.cpu == s.cpu && r.queue == s.queue)
  {
  }

  /** A CPU repair frees the CPU and starts the front waiting task, if any. */
  lemma RepairRestartsWork(s: SimState, e: Event, preempt: bool)
    requires e.eventType == "ResourceRepair" && e.data.resource == Some("CPU")
    ensures var r := Step(s, e, preempt);
      r.errorsOccurred == s.errorsOccurred &&
      (s.activeTasks == [] ==> r.cpu == Idle && r.queue == s.queue) &&
      (s.activeTasks != [] ==>
         (r.cpu == Busy && r.activeTasks == s.activeTasks[1..] &&
          r.queue == s.queue + [Completion(e.time + s.activeTasks[0].processingTime, s.activeTasks[0].taskId, e.time)]))
  {
  }

  predicate KnownType(t: string)
  {
    t == "TaskArrival" || t == "TaskCompletion" || t == "ResourceFailure" || t == "ResourceRepair"
  }

  /** An event of any other type only counts as an error. */
  lemma UnknownEventCountsError(s: SimState, e: Event, preempt: bool)
    requires !KnownType(e.eventType)
    ensures Step(s, e, preempt) == s.(currentTime := e.time, eventsProcessed := s.eventsProcessed + 1,
                                     errorsOccurred := s.errorsOccurred + 1)
  {
  }

  /** The CPU is never idle while tasks wait. */
  predicate WorkConserving(s: SimState)
  {
    s.cpu == Idle ==> s.activeTasks == []
  }

  /** Every event keeps the CPU from idling while tasks wait. */
  lemma StepKeepsWorkConserving(s: SimState, e: Event, preempt: bool)
    requires WorkConserving(s)
    ensures WorkConserving(Step(s, e, preempt))
  {
  }

  // ---------------------------------------------------------------------
  // The run loop
  // ---------------------------------------------------------------------

  /**
   * Arrivals and failures may each turn into one more pending event or
   * waiting task, so they weigh 2; everything else weighs 1.
   */
  function Weight(e: Event): nat
  {
    if e.eventType == "TaskArrival" || e.eventType == "ResourceFailure" then 2 else 1
  }

  function QueueWeight(q: seq<Event>): nat
    decreases |q|
  {
    if q == [] then 0 else Weight(q[0]) + QueueWeight(q[1..])
  }

  lemma {:induction false} QueueWeightAppend(a: seq<Event>, b: seq<Event>)
    ensures QueueWeight(a + b) == QueueWeight(a) + QueueWeight(b)
    decreases |a|
  {
    if a == [] {
      assert a + b == b;
    } else {
      assert (a + b)[0] == a[0];
      assert (a + b)[1..] == a[1..] + b;
      QueueWeightAppend(a[1..], b);
    }
  }

  lemma TakeDrop(q: seq<Event>, j: nat)
    requires j <= |q|
    ensures q[..j] + q[j..] == q
    ensures j < |q| ==> q[j..][0] == q[j] && q[j..][1..] == q[j + 1..]
  {
  }

  lemma PrefixPlusLast(q: seq<Event>, r: seq<Event>)
    requires |q| <= |r| <= |q| + 1 && r[..|q|] == q
    ensures |r| == |q| ==> r == q
    ensures |r| > |q| ==> r == q + [r[|q|]]
  {
  }

  lemma QueueWeightSplit(q: seq<Event>, j: nat)
    requires j <= |q|
    ensures QueueWeight(q) == QueueWeight(q[..j]) + QueueWeight(q[j..])
  {
    TakeDrop(q, j);
    QueueWeightAppend(q[..j], q[j..]);
  }

  lemma QueueWeightDrop(q: seq<Event>, j: nat)
    requires j < |q|
    ensures QueueWeight(q[j..]) == Weight(q[j]) + QueueWeight(q[j + 1..])
  {
    TakeDrop(q, j);
  }

  lemma QueueWeightRemoveAt(q: seq<Event>, j: nat)
    requires j < |q|
    ensures QueueWeight(RemoveAt(q, j)) + Weight(q[j]) == QueueWeight(q)
  {
    QueueWeightSplit(q, j);
    QueueWeightDrop(q, j);
    QueueWeightAppend(q[..j], q[j + 1..]);
  }

  /** What still may happen: pending event weights plus waiting tasks. */
  function Potential(s: SimState): nat
  {
    QueueWeight(s.queue) + |s.activeTasks|
  }

  lemma QueueWeightSnoc(q: seq<Event>, x: Event)
    ensures QueueWeight(q + [x]) == QueueWeight(q) + Weight(x)
  {
    QueueWeightAppend(q, [x]);
    assert [x][1..] == [];
  }

  /** Starting a waiting task moves one unit of work from the tasks to the queue. */
  lemma DispatchKeepsPotential(s: SimState)
    requires s.activeTasks != []
    ensures Potential(Dispatch(s)) == Potential(s)
  {
    var t := s.activeTasks[0];
    QueueWeightSnoc(s.queue, Completion(s.currentTime + t.processingTime, t.taskId, s.currentTime));
  }

  lemma ArrivalAddsOneUnit(s: SimState, e: Event, preempt: bool)
    ensures Potential(OnArrival(s, e, preempt)) == Potential(s) + 1
  {
    if s.cpu == Idle {
      var p := GetOr(e.data.processingTime, 1.0);
      QueueWeightSnoc(s.queue, Completion(s.currentTime + p, e.data.taskId, s.currentTime));
    }
  }

  lemma CompletionKeepsPotential(s: SimState)
    ensures Potential(OnCompletion(s)) == Potential(s)
  {
    if s.activeTasks != [] {
      DispatchKeepsPotential(s.(cpu := Idle));
    }
  }

  lemma FailureAddsAtMostOneUnit(s: SimState, e: Event)
    ensures Potential(OnFailure(s, e)) <= Potential(s) + 1
  {
    if e.data.resource == Some("CPU") {
      QueueWeightSnoc(s.queue, Repair(s.currentTime + GetOr(e.data.repairDuration, 5.0)));
    }
  }

  lemma RepairKeepsPotential(s: SimState, e: Event)
    ensures Potential(OnRepair(s, e)) == Potential(s)
  {
    var s1 := if e.data.resource == Some("CPU") then s.(cpu := Idle) else s;
    if s1.activeTasks != [] && s1.cpu == Idle {
      DispatchKeepsPotential(s1);
    }
  }

  /** Processing a popped event leaves less to do than before it was popped. */
  lemma StepLowersPotential(s: SimState, e: Event, preempt: bool)
    ensures Potential(Step(s, e, preempt)) < Potential(s) + Weight(e)
  {
    var s0 := s.(currentTime := e.time, eventsProcessed := s.eventsProcessed + 1);
    if e.eventType == "TaskArrival" {
      ArrivalAddsOneUnit(s0, e, preempt);
    } else if e.eventType == "TaskCompletion" {
      CompletionKeepsPotential(s0);
    } else if e.eventType == "ResourceFailure" {
      FailureAddsAtMostOneUnit(s0, e);
    } else if e.eventType == "ResourceRepair" {
      RepairKeepsPotential(s0, e);
    }
  }

  /**
   * The `while` loop of `run_simulation`, without its random task
   * injection: pop the earliest event; one later than the end time goes
   * back and stops the run; one older than the clock by more than 0.001 is
   * dropped; any other is processed.  `coin(n)` is the preempt draw of the
   * event processed when `n` events have been processed before it.
   */
  function Run(s: SimState, endTime: real, coin: nat -> bool): SimState
    decreases Potential(s)
  {
    if s.queue == [] || s.currentTime >= endTime then s
    else
      var j := MinIndex(s.queue);
      var e := s.queue[j];
      var rest := s.(queue := RemoveAt(s.queue, j));
      QueueWeightRemoveAt(s.queue, j);
      if e.time > endTime then rest.(queue := rest.queue + [e])
      else if e.time < s.currentTime - 0.001 then Run(rest, endTime, coin)
      else
        StepLowersPotential(rest, e, coin(s.eventsProcessed));
        Run(Step(rest, e, coin(s.eventsProcessed)), endTime, coin)
  }

  /**
   * A run stops with an empty queue, with the clock at or past the end
   * time, or with every pending event later than the end time.
   */
  lemma {:induction false} RunStops(s: SimState, endTime: real, coin: nat -> bool)
    ensures var r := Run(s, endTime, coin);
      r.queue == [] || r.currentTime >= endTime || forall i :: 0 <= i < |r.queue| ==> r.queue[i].time > endTime
    decreases Potential(s)
  {
    if s.queue != [] && s.currentTime < endTime {
      var j := MinIndex(s.queue);
      var e := s.queue[j];
      var rest := s.(queue := RemoveAt(s.queue, j));
      QueueWeightRemoveAt(s.queue, j);
      if e.time > endTime {
        var q := rest.queue + [e];
        forall i | 0 <= i < |q|
          ensures q[i].time > endTime
        {
          if i < j {
            assert q[i] == s.queue[i];
          } else if i < |q| - 1 {
            assert q[i] == s.queue[i + 1];
          }
        }
      } else if e.time < s.currentTime - 0.001 {
        RunStops(rest, endTime, coin);
      } else {
        StepLowersPotential(rest, e, coin(s.eventsProcessed));
        RunStops(Step(rest, e, coin(s.eventsProcessed)), endTime, coin);
      }
    }
  }

  /** Counters never go down over a run, and the CPU never idles while tasks wait. */
  lemma {:induction false} RunKeepsInvariants(s: SimState, endTime: real, coin: nat -> bool)
    ensures Run(s, endTime, coin).eventsProcessed >= s.eventsProcessed
    ensures Run(s, endTime, coin).errorsOccurred >= s.errorsOccurred
    ensures WorkConserving(s) ==> WorkConserving(Run(s, endTime, coin))
    decreases Potential(s)
  {
    if s.queue != [] && s.currentTime < endTime {
      var j := MinIndex(s.queue);
      var e := s.queue[j];
      var rest := s.(queue := RemoveAt(s.queue, j));
      QueueWeightRemoveAt(s.queue, j);
      if e.time > endTime {
      } else if e.time < s.currentTime - 0.001 {
        RunKeepsInvariants(rest, endTime, coin);
      } else {
        StepLowersPotential(rest, e, coin(s.eventsProcessed));
        if WorkConserving(s) {
          StepKeepsWorkConserving(rest, e, coin(s.eventsProcessed));
        }
        RunKeepsInvariants(Step(rest, e, coin(s.eventsProcessed)), endTime, coin);
      }
    }
  }

  /** The five events `run_simulation` schedules before its loop. */
  function InitialEvents(): seq<Event>
  {
    [Event(1.0, "TaskArrival", EventData(Some("T1"), Some(3.0), Some(1), None, None, None)),
     Event(1.5, "TaskArrival", EventData(Some("T2"), Some(2.0), Some(0), None, None, None)),
     Event(2.0, "ResourceFailure", EventData(None, None, None, None, Some("CPU"), Some(4.0))),
     Event(2.5, "TaskArrival", EventData(Some("T3"), Some(4.0), Some(5), None, None, None)),
     Event(3.0, "TaskArrival", EventData(Some("T4"), Some(1.5), Some(2), None, None, None))]
  }

  // ---------------------------------------------------------------------
  // The simulator object
  // ---------------------------------------------------------------------

  class EventDrivenSimulator {
    var currentTime: real
    const endTime: real
    var eventQueue: seq<Event>
    var eventsProcessed: nat
    var errorsOccurred: nat
    var cpu: Cpu
    var activeTasks: seq<Task>

    /** The fields as one value. */
    function State(): SimState
      reads this
    {
      SimState(currentTime, eventQueue, eventsProcessed, errorsOccurred, cpu, activeTasks)
    }

    /** Starts at `startTime` with nothing pending, no counts and an idle CPU. */
    constructor (startTime: real, endTime: real)
      ensures State() == SimState(startTime, [], 0, 0, Idle, [])
      ensures this.endTime == endTime
    {
      currentTime := startTime;
      this.endTime := endTime;
      eventQueue := [];
      eventsProcessed := 0;
      errorsOccurred := 0;
      cpu := Idle;
      activeTasks := [];
    }

    /** `schedule_event`: the event is always queued, even one in the past. */
    method ScheduleEvent(event: Event)
      modifies this
      ensures State() == old(State()).(queue := old(eventQueue) + [event])
    {
      eventQueue := eventQueue + [event];
    }

    /** `heapq.heappop`: removes and returns an event no pending event precedes. */
    method PopEvent() returns (event: Event)
      requires eventQueue != []
      modifies this
      ensures event == old(eventQueue)[MinIndex(old(eventQueue))]
      ensures forall i :: 0 <= i < |old(eventQueue)| ==> !EventLess(old(eventQueue)[i], event)
      ensures State() == old(State()).(queue := RemoveAt(old(eventQueue), MinIndex(old(eventQueue))))
    {
      var j := MinIndex(eventQueue);
      event := eventQueue[j];
      eventQueue := RemoveAt(eventQueue, j);
    }

    /** `process_event` with the preempt draw supplied. */
    method ProcessEvent(event: Event, preempt: bool)
      modifies this
      ensures State() == Step(old(State()), event, preempt)
    {
      currentTime := event.time;
      eventsProcessed := eventsProcessed + 1;
      if event.eventType == "TaskArrival" {
        HandleArrival(event, preempt);
      } else if event.eventType == "TaskCompletion" {
        HandleCompletion();
      } else if event.eventType == "ResourceFailure" {
        HandleFailure(event);
      } else if event.eventType == "ResourceRepair" {
        HandleRepair(event);
      } else {
        errorsOccurred := errorsOccurred + 1;
      }
    }

    /** The `TaskArrival` branch of `process_event`. */
    method HandleArrival(event: Event, preempt: bool)
      modifies this
      ensures State() == OnArrival(old(State()), event, preempt)
    {
      var taskId := event.data.taskId;
      var processingTime := GetOr(event.data.processingTime, 1.0);
      var priority := GetOr(event.data.priority, 0);
      if cpu == Idle {
        cpu := Busy;
        var finishTime := currentTime + processingTime;
        ScheduleEvent(Completion(finishTime, taskId, currentTime));
      } else if cpu == Busy && priority > 0 {
        if preempt {
          activeTasks := [Task(taskId, currentTime, priority, processingTime)] + activeTasks;
          errorsOccurred := errorsOccurred + 1;
        } else {
          activeTasks := activeTasks + [Task(taskId, currentTime, priority, processingTime)];
        }
      } else {
        activeTasks := activeTasks + [Task(taskId, currentTime, priority, processingTime)];
      }
    }

    /** The `TaskCompletion` branch of `process_event`. */
    method HandleCompletion()
      modifies this
      ensures State() == OnCompletion(old(State()))
    {
      cpu := Idle;
      if activeTasks != [] {
        var nextTask := activeTasks[0];
        activeTasks := activeTasks[1..];
        var waitTime := currentTime - nextTask.arrival;
        var finishTime := currentTime + nextTask.processingTime;
        ScheduleEvent(Completion(finishTime, nextTask.taskId, currentTime));
        cpu := Busy;
        if nextTask.priority > 3 && waitTime > 1.0 {
          errorsOccurred := errorsOccurred + 1;
        }
      }
    }

    /** The `ResourceFailure` branch of `process_event`. */
    method HandleFailure(event: Event)
      modifies this
      ensures State() == OnFailure(old(State()), event)
    {
      errorsOccurred := errorsOccurred + 1;
      if event.data.resource == Some("CPU") {
        cpu := Failed;
        var repairTime := currentTime + GetOr(event.data.repairDuration, 5.0);
        ScheduleEvent(Repair(repairTime));
      }
    }

    /** The `ResourceRepair` branch of `process_event`. */
    method HandleRepair(event: Event)
      modifies this
      ensures State() == OnRepair(old(State()), event)
    {
      if event.data.resource == Some("CPU") {
        cpu := Idle;
      }
      if activeTasks != [] && cpu == Idle {
        var nextTask := activeTasks[0];
        activeTasks := activeTasks[1..];
        var finishTime := currentTime + nextTask.processingTime;
        ScheduleEvent(Completion(finishTime, nextTask.taskId, currentTime));
        cpu := Busy;
      }
    }

    /** The `while` loop of `run_simulation`, with `coin` supplying the preempt draws. */
    method RunLoop(coin: nat -> bool)
      modifies this
      ensures State() == Run(old(State()), endTime, coin)
      ensures eventQueue == [] || currentTime >= endTime ||
        forall i :: 0 <= i < |eventQueue| ==> eventQueue[i].time > endTime
    {
      RunStops(State(), endTime, coin);
      ghost var final := Run(State(), endTime, coin);
      while eventQueue != [] && currentTime < endTime
        invariant Run(State(), endTime, coin) == final
        decreases Potential(State())
      {
        ghost var s := State();
        QueueWeightRemoveAt(eventQueue, MinIndex(eventQueue));
        var nextEvent := PopEvent();
        if nextEvent.time > endTime {
          ScheduleEvent(nextEvent);
          assert State() == final;
          break;
        }
        if nextEvent.time < currentTime - 0.001 {
          continue;
        }
        StepLowersPotential(State(), nextEvent, coin(eventsProcessed));
        ProcessEvent(nextEvent, coin(eventsProcessed));
      }
    }

    /** `run_simulation` without its logging and summary: seed five events, then run. */
    method RunSimulation(coin: nat -> bool)
      modifies this
      ensures State() == Run(old(State()).(queue := old(eventQueue) + InitialEvents()), endTime, coin)
    {
      var events := InitialEvents();
      ScheduleEvent(events[0]);
      ScheduleEvent(events[1]);
      ScheduleEvent(events[2]);
      ScheduleEvent(events[3]);
      ScheduleEvent(events[4]);
      assert eventQueue == old(eventQueue) + events;
      RunLoop(coin);
    }
  }
}
