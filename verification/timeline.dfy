/**
 The experience and education timeline, and its one-shot "Present" entry.

 When the timeline first scrolls into view it schedules two timers: after
 1000 ms the list starts shifting down, and after 1500 ms a new entry for the
 present position is put at the head of the list and the shift ends.  Leaving
 the page (or the effect running again) first clears both timers.

 Time is a millisecond counter advanced by `Tick`; a timer fires on the first
 tick that reaches its deadline.  Two timers due in the same tick fire in
 deadline order.
 */
module Timeline {

  import opened Common

  /** One entry of the timeline; `kind` is the entry's `type` ("experience" or "education"). */
  datatype Item = Item(date: string, title: string, subtitle: string, description: string,
                       isNew: bool, kind: string)

  /** The entry added once the timeline has been seen. */
  const NewItem: Item := Item("Present", "Software Engineer", "Your Company",
                              "Ready to bring my skills and experience to your team!", true, "experience")

  const ShiftDelay: nat := 1000
  const InsertDelay: nat := 1500

  /** The list, the shift flag, the two pending timers (by deadline) and the clock. */
  datatype TimelineState = TimelineState(items: seq<Item>, isShifting: bool,
                                         shiftAt: Option<nat>, insertAt: Option<nat>, now: nat)

  /** The timeline as first rendered with the entries it is given. */
  function Mount(items: seq<Item>, now: nat): (s: TimelineState)
    ensures s.items == items && !s.isShifting
    ensures s.shiftAt == None && s.insertAt == None
  {
    TimelineState(items, false, None, None, now)
  }

  /** The effect's cleanup: both timers are cancelled; nothing else changes. */
  function Cleanup(s: TimelineState): (r: TimelineState)
    ensures r.shiftAt == None && r.insertAt == None
    ensures r.items == s.items && r.isShifting == s.isShifting && r.now == s.now
  {
    s.(shiftAt := None, insertAt := None)
  }

  /**
   The effect, run whenever `inView` changes: the previous run's timers are
   cleared, and only when the timeline is in view are the two timers set.
   */
  function Effect(s: TimelineState, inView: bool): (r: TimelineState)
    ensures r.items == s.items && r.isShifting == s.isShifting && r.now == s.now
    ensures inView ==> r.shiftAt == Some(s.now + ShiftDelay) && r.insertAt == Some(s.now + InsertDelay)
    ensures !inView ==> r.shiftAt == None && r.insertAt == None
  {
    var c := Cleanup(s);
    if inView then
      c.(shiftAt := Some(s.now + ShiftDelay), insertAt := Some(s.now + InsertDelay))
    else
      c
  }

  /** A timer with this deadline fires by time `t`. */
  predicate Due(timer: Option<nat>, t: nat)
  {
    timer.Some? && timer.value <= t
  }

  /**
   `dt` milliseconds pass.  A due shift timer sets the shift flag; a due
   insert timer puts `NewItem` at the head of the list and clears the flag.
   Fired timers are gone.
   */
  function Tick(s: TimelineState, dt: nat): (r: TimelineState)
    ensures r.now == s.now + dt
    ensures Due(s.insertAt, r.now) ==> r.items == [NewItem] + s.items
    ensures !Due(s.insertAt, r.now) ==> r.items == s.items
    ensures Due(s.shiftAt, r.now) ==> r.shiftAt == None
    ensures Due(s.insertAt, r.now) ==> r.insertAt == None
    ensures Due(s.shiftAt, r.now) && !Due(s.insertAt, r.now) ==> r.isShifting
    ensures Due(s.insertAt, r.now) && (!Due(s.shiftAt, r.now) || s.shiftAt.value <= s.insertAt.value) ==> !r.isShifting
    ensures Due(s.shiftAt, r.now) && Due(s.insertAt, r.now) && s.insertAt.value < s.shiftAt.value ==> r.isShifting
    ensures !Due(s.shiftAt, r.now) ==> r.shiftAt == s.shiftAt
    ensures !Due(s.insertAt, r.now) ==> r.insertAt == s.insertAt
    ensures !Due(s.shiftAt, r.now) && !Due(s.insertAt, r.now) ==> r == s.(now := r.now)
  {
    var t := s.now + dt;
    var shiftFires := Due(s.shiftAt, t);
    var insertFires := Due(s.insertAt, t);
    var insertLast := insertFires && (!shiftFires || s.shiftAt.value <= s.insertAt.value);
    TimelineState(
      if insertFires then [NewItem] + s.items else s.items,
      if insertLast then false else if shiftFires then true else s.isShifting,
      if shiftFires then None else s.shiftAt,
      if insertFires then None else s.insertAt,
      t)
  }

  /** Several ticks, oldest first. */
  function Ticks(s: TimelineState, dts: seq<nat>): TimelineState
    decreases |dts|
  {
    if dts == [] then s else Ticks(Tick(s, dts[0]), dts[1..])
  }

  /** The total time the ticks cover. */
  function Elapsed(dts: seq<nat>): nat
    decreases |dts|
  {
    if dts == [] then 0 else dts[0] + Elapsed(dts[1..])
  }

  /** The delay before an entry animates in: the new entry waits 1500 ms. */
  function Delay(item: Item): (ms: nat)
    ensures ms == InsertDelay <==> item.isNew
    ensures ms == 0 <==> !item.isNew
  {
    if item.isNew then InsertDelay else 0
  }

  datatype Icon = Briefcase | GraduationCap

  /** The entry's icon: a briefcase for work experience, a cap for anything else. */
  function IconOf(item: Item): (icon: Icon)
    ensures icon == Briefcase <==> item.kind == "experience"
    ensures icon == GraduationCap <==> item.kind != "experience"
  {
    if item.kind == "experience" then Briefcase else GraduationCap
  }

  /**
   The state `e` milliseconds after the effect ran in view at time `base`,
   given the list `items` and shift flag `shifting` it found.
   */
  predicate ScheduledState(s: TimelineState, base: nat, items: seq<Item>, shifting: bool)
  {
    && base <= s.now
    && var e := s.now - base;
    && s.items == (if e >= InsertDelay then [NewItem] + items else items)
    && s.isShifting == (if e >= InsertDelay then false else if e >= ShiftDelay then true else shifting)
    && s.shiftAt == (if e >= ShiftDelay then None else Some(base + ShiftDelay))
    && s.insertAt == (if e >= InsertDelay then None else Some(base + InsertDelay))
  }

  lemma {:induction false} TicksFromScheduled(s: TimelineState, base: nat, items: seq<Item>,
                                              shifting: bool, dts: seq<nat>)
    requires ScheduledState(s, base, items, shifting)
    ensures ScheduledState(Ticks(s, dts), base, items, shifting)
    ensures Ticks(s, dts).now == s.now + Elapsed(dts)
    decreases |dts|
  {
    if dts != [] {
      TicksFromScheduled(Tick(s, dts[0]), base, items, shifting, dts[1..]);
    }
  }

  /**
   Once the timeline is in view, the list is unchanged before 1500 ms and has
   the new entry prepended from then on, exactly once; the shift flag is set
   from 1000 ms until the insertion and clear afterwards.
   */
  lemma InViewTimeline(s: TimelineState, dts: seq<nat>)
    ensures var r := Ticks(Effect(s, true), dts);
      && r.items == (if Elapsed(dts) >= InsertDelay then [NewItem] + s.items else s.items)
      && (Elapsed(dts) >= InsertDelay ==> !r.isShifting && |r.items| == |s.items| + 1 && r.items[1..] == s.items)
      && (ShiftDelay <= Elapsed(dts) < InsertDelay ==> r.isShifting)
      && (Elapsed(dts) < ShiftDelay ==> r.isShifting == s.isShifting)
  {
    TicksFromScheduled(Effect(s, true), s.now, s.items, s.isShifting, dts);
  }

  /** With no timer pending, time passing changes nothing but the clock. */
  lemma {:induction false} IdleTicks(s: TimelineState, dts: seq<nat>)
    requires s.shiftAt == None && s.insertAt == None
    ensures Ticks(s, dts) == s.(now := s.now + Elapsed(dts))
    decreases |dts|
  {
    if dts != [] {
      IdleTicks(Tick(s, dts[0]), dts[1..]);
    }
  }

  /** Out of view, the effect schedules nothing, so the list and the flag never change. */
  lemma NotInViewNothingHappens(s: TimelineState, dts: seq<nat>)
    ensures Ticks(Effect(s, false), dts).items == s.items
    ensures Ticks(Effect(s, false), dts).isShifting == s.isShifting
  {
    IdleTicks(Effect(s, false), dts);
  }

  /**
   Leaving the page before the 1500 ms are up cancels the insertion: however
   long one waits afterwards, the new entry never appears.
   */
  lemma CleanupBeforeInsertion(s: TimelineState, before: seq<nat>, after: seq<nat>)
    requires Elapsed(before) < InsertDelay
    ensures Ticks(Cleanup(Ticks(Effect(s, true), before)), after).items == s.items
  {
    InViewTimeline(s, before);
    IdleTicks(Cleanup(Ticks(Effect(s, true), before)), after);
  }

  /** The added entry is marked new, dated "Present", drawn after 1500 ms and shown with a briefcase. */
  lemma NewItemShape()
    ensures NewItem.isNew && NewItem.date == "Present" && NewItem.kind == "experience"
    ensures Delay(NewItem) == 1500
    ensures IconOf(NewItem) == Briefcase
  {
  }
}
