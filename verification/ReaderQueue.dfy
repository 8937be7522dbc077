/**
 The queue between the message bus and the routing service: units that pass a
 reader's filter are copied into its array, and reading converts and removes the
 ones present when it started. Arrivals come from another thread between any two
 steps of a read; every array operation counts as one step.
 */
module ReaderQueue {
  import opened Options
  import opened GrowArrays
  import opened FilterParser

  /** What becomes of a unit that is read: a sample, or nothing when the conversion fails. */
  type Converter = Apdu -> Option<string>

  function Converted(apdus: seq<Apdu>, convert: Converter): seq<string> {
    if apdus == [] then []
    else
      (match convert(apdus[0])
       case None => []
       case Some(sample) => [sample])
      + Converted(apdus[1..], convert)
  }

  function Passing(f: Filter, apdus: seq<Apdu>): seq<Apdu> {
    if apdus == [] then []
    else (if Passes(f, apdus[0]) then [apdus[0]] else []) + Passing(f, apdus[1..])
  }

  lemma {:induction false} ConvertedConcat(a: seq<Apdu>, b: seq<Apdu>, convert: Converter)
    ensures Converted(a + b, convert) == Converted(a, convert) + Converted(b, convert)
  {
    if a == [] {
      assert a + b == b;
    } else {
      assert (a + b)[1..] == a[1..] + b;
      ConvertedConcat(a[1..], b, convert);
    }
  }

  lemma {:induction false} PassingSnoc(f: Filter, apdus: seq<Apdu>, a: Apdu)
    ensures Passing(f, apdus + [a]) == Passing(f, apdus) + if Passes(f, a) then [a] else []
  {
    if apdus == [] {
      assert [a][1..] == [];
    } else {
      assert (apdus + [a])[1..] == apdus[1..] + [a];
      PassingSnoc(f, apdus[1..], a);
    }
  }

  lemma {:induction false} ConvertedAtMost(apdus: seq<Apdu>, convert: Converter)
    ensures |Converted(apdus, convert)| <= |apdus|
  {
    if apdus != [] {
      ConvertedAtMost(apdus[1..], convert);
    }
  }

  // -------------------------------------------------------- reader and bus as a machine

  /**
   Where a read stands. `size` is the number of units it took note of; `output`
   is the array allocated for that many samples.
   */
  datatype Phase =
    | Idle
    | Converting(size: nat, i: nat, output: seq<string>)
    | Removing(size: nat, left: nat, output: seq<string>)

  /** `arrived` and `delivered` are the history of what came in and of what reads handed out. */
  datatype Reader = Reader(
    filter: Filter, queue: seq<Apdu>, phase: Phase, arrived: seq<Apdu>, delivered: seq<string>)

  datatype Step =
    | Arrival(apdu: Apdu)
    | BeginRead
    | ConvertOne
    | RemoveOne
    | FinishRead

  function Start(f: Filter): Reader {
    Reader(f, [], Idle, [], [])
  }

  predicate Enabled(r: Reader, step: Step) {
    match step
    case Arrival(_) => true
    case BeginRead => r.phase.Idle?
    case ConvertOne => r.phase.Converting? && r.phase.i < r.phase.size
    case RemoveOne => (r.phase.Converting? && r.phase.i == r.phase.size > 0) || (r.phase.Removing? && r.phase.left > 0)
    case FinishRead => (r.phase.Converting? && r.phase.i == r.phase.size == 0) || (r.phase.Removing? && r.phase.left == 0)
  }

  /** The unit that a step reads out of the array must be there. */
  predicate InBounds(r: Reader, step: Step) {
    match step
    case ConvertOne => r.phase.Converting? && r.phase.i < |r.queue| && |r.phase.output| < r.phase.size
    case _ => true
  }

  function Next(r: Reader, step: Step, convert: Converter): Reader
    requires Enabled(r, step) && InBounds(r, step)
  {
    match step
    case Arrival(a) =>
      r.(arrived := r.arrived + [a], queue := if Passes(r.filter, a) then r.queue + [a] else r.queue)
    case BeginRead => r.(phase := Converting(|r.queue|, 0, []))
    case ConvertOne =>
      var output := match convert(r.queue[r.phase.i])
                    case None => r.phase.output
                    case Some(sample) => r.phase.output + [sample];
      r.(phase := Converting(r.phase.size, r.phase.i + 1, output))
    case RemoveOne =>
      var left := if r.phase.Converting? then r.phase.size else r.phase.left;
      r.(queue := RemoveAt(r.queue, left - 1), phase := Removing(r.phase.size, left - 1, r.phase.output))
    case FinishRead => r.(phase := Idle, delivered := r.delivered + r.phase.output)
  }

  /** The units that passed the filter: those of finished reads, those of the read under way, and later ones. */
  datatype Account = Account(done: seq<Apdu>, batch: seq<Apdu>, later: seq<Apdu>)

  ghost predicate Accounted(r: Reader, k: Account, convert: Converter) {
    && Passing(r.filter, r.arrived) == k.done + (k.batch + k.later)
    && r.delivered == Converted(k.done, convert)
    && match r.phase
       case Idle => k.batch == [] && r.queue == k.later
       case Converting(size, i, output) =>
         i <= size == |k.batch| && r.queue == k.batch + k.later && output == Converted(k.batch[..i], convert)
       case Removing(size, left, output) =>
         left <= size == |k.batch| && r.queue == k.batch[..left] + k.later && output == Converted(k.batch, convert)
  }

  ghost predicate Inv(r: Reader, convert: Converter) {
    exists k :: Accounted(r, k, convert)
  }

  lemma ArrivalKeeps(r: Reader, a: Apdu, k: Account, convert: Converter)
    requires Accounted(r, k, convert)
    ensures Accounted(Next(r, Arrival(a), convert),
                      if Passes(r.filter, a) then k.(later := k.later + [a]) else k, convert)
  {
    PassingSnoc(r.filter, r.arrived, a);
    assert k.done + (k.batch + k.later) + [a] == k.done + (k.batch + (k.later + [a]));
    assert k.done + (k.batch + k.later) + [] == k.done + (k.batch + k.later);
    assert k.batch + k.later + [a] == k.batch + (k.later + [a]);
  }

  lemma BeginKeeps(r: Reader, k: Account, convert: Converter)
    requires Accounted(r, k, convert) && Enabled(r, BeginRead)
    ensures Accounted(Next(r, BeginRead, convert), Account(k.done, k.later, []), convert)
  {
    assert k.batch + k.later == k.later + [];
  }

  lemma ConvertKeeps(r: Reader, k: Account, convert: Converter)
    requires Accounted(r, k, convert) && Enabled(r, ConvertOne)
    ensures InBounds(r, ConvertOne) && Accounted(Next(r, ConvertOne, convert), k, convert)
  {
    var i := r.phase.i;
    ConvertedAtMost(k.batch[..i], convert);
    ConvertedSnoc(k.batch, i, convert);
    assert r.queue[i] == k.batch[i];
  }

  lemma ConvertedSnoc(apdus: seq<Apdu>, i: nat, convert: Converter)
    requires i < |apdus|
    ensures Converted(apdus[..i + 1], convert) ==
            match convert(apdus[i])
            case None => Converted(apdus[..i], convert)
            case Some(sample) => Converted(apdus[..i], convert) + [sample]
  {
    assert apdus[..i + 1] == apdus[..i] + [apdus[i]];
    ConvertedConcat(apdus[..i], [apdus[i]], convert);
    assert [apdus[i]][1..] == [];
  }

  lemma RemoveKeeps(r: Reader, k: Account, convert: Converter)
    requires Accounted(r, k, convert) && Enabled(r, RemoveOne)
    ensures Accounted(Next(r, RemoveOne, convert), k, convert)
  {
    var left := if r.phase.Converting? then r.phase.size else r.phase.left;
    assert k.batch[..|k.batch|] == k.batch;
    assert r.queue == k.batch[..left] + k.later;
    assert RemoveAt(r.queue, left - 1) == k.batch[..left - 1] + k.later;
  }

  lemma FinishKeeps(r: Reader, k: Account, convert: Converter)
    requires Accounted(r, k, convert) && Enabled(r, FinishRead)
    ensures Accounted(Next(r, FinishRead, convert), Account(k.done + k.batch, [], k.later), convert)
  {
    ConvertedConcat(k.done, k.batch, convert);
    assert k.done + (k.batch + k.later) == k.done + k.batch + ([] + k.later);
    assert k.batch[..|k.batch|] == k.batch;
    assert k.batch[..0] + k.later == k.later;
  }

  /** Every step keeps the account, and never reads or writes outside the arrays. */
  lemma StepKeepsInv(r: Reader, step: Step, convert: Converter)
    requires Inv(r, convert) && Enabled(r, step)
    ensures InBounds(r, step) && Inv(Next(r, step, convert), convert)
  {
    hide Accounted, Next;
    var k :| Accounted(r, k, convert);
    match step
    case Arrival(a) => ArrivalKeeps(r, a, k, convert);
    case BeginRead => BeginKeeps(r, k, convert);
    case ConvertOne => ConvertKeeps(r, k, convert);
    case RemoveOne => RemoveKeeps(r, k, convert);
    case FinishRead => FinishKeeps(r, k, convert);
  }

  /** A run: every step is enabled when it is taken. */
  ghost predicate IsRun(rs: seq<Reader>, steps: seq<Step>, f: Filter, convert: Converter) {
    && |rs| == |steps| + 1 && rs[0] == Start(f)
    && forall i | 0 <= i < |steps| ::
         Enabled(rs[i], steps[i]) && InBounds(rs[i], steps[i]) && rs[i + 1] == Next(rs[i], steps[i], convert)
  }

  lemma {:induction false} RunKeepsInv(rs: seq<Reader>, steps: seq<Step>, f: Filter, convert: Converter, n: nat)
    requires IsRun(rs, steps, f, convert) && n < |rs|
    ensures Inv(rs[n], convert)
  {
    if n == 0 {
      assert Accounted(Start(f), Account([], [], []), convert);
    } else {
      RunKeepsInv(rs, steps, f, convert, n - 1);
      StepKeepsInv(rs[n - 1], steps[n - 1], convert);
    }
  }

  /** A run can always go on with any enabled step: no step of a read gets stuck or leaves the arrays. */
  lemma RunNeverStuck(rs: seq<Reader>, steps: seq<Step>, f: Filter, convert: Converter, step: Step)
    requires IsRun(rs, steps, f, convert) && Enabled(rs[|steps|], step)
    ensures InBounds(rs[|steps|], step)
    ensures IsRun(rs + [Next(rs[|steps|], step, convert)], steps + [step], f, convert)
  {
    hide Enabled, InBounds, Inv, Next, Start;
    RunKeepsInv(rs, steps, f, convert, |steps|);
    StepKeepsInv(rs[|steps|], step, convert);
  }

  /** The steps of its own that a read still has to take. */
  function StepsLeft(r: Reader): int {
    match r.phase
    case Idle => 0
    case Converting(size, i, _) => (size - i) + size + 1
    case Removing(_, left, _) => left + 1
  }

  /** A read under way always has a next step, which brings it closer to its end; arrivals do not put it off. */
  lemma ReadGoesOn(r: Reader, a: Apdu, convert: Converter) returns (step: Step)
    requires Inv(r, convert) && !r.phase.Idle?
    ensures step in {ConvertOne, RemoveOne, FinishRead} && Enabled(r, step) && InBounds(r, step)
    ensures 0 <= StepsLeft(Next(r, step, convert)) < StepsLeft(r)
    ensures StepsLeft(Next(r, step, convert)) == 0 <==> Next(r, step, convert).phase.Idle?
    ensures StepsLeft(Next(r, Arrival(a), convert)) == StepsLeft(r)
  {
    hide Converted, Passing;
    var k :| Accounted(r, k, convert);
    step := match r.phase
      case Converting(size, i, _) => if i < size then ConvertOne else if size > 0 then RemoveOne else FinishRead
      case Removing(_, left, _) => if left > 0 then RemoveOne else FinishRead
      case Idle => FinishRead;
    StepKeepsInv(r, step, convert);
  }

  /** The samples that the units in the queue will give, beyond those already in the output of a read. */
  function StillToCome(r: Reader, convert: Converter): seq<string> {
    match r.phase
    case Idle => Converted(r.queue, convert)
    case Converting(_, i, output) => if i <= |r.queue| then output + Converted(r.queue[i..], convert) else []
    case Removing(_, left, output) => if left <= |r.queue| then output + Converted(r.queue[left..], convert) else []
  }

  /**
   Conservation: over any interleaving of arrivals with the steps of reads, what
   was handed out and what is still to come are together the conversions of
   exactly the units that passed the filter, in order of arrival.
   */
  lemma Conservation(rs: seq<Reader>, steps: seq<Step>, f: Filter, convert: Converter)
    requires IsRun(rs, steps, f, convert)
    ensures var r := rs[|steps|];
            r.delivered + StillToCome(r, convert) == Converted(Passing(r.filter, r.arrived), convert)
  {
    RunKeepsInv(rs, steps, f, convert, |steps|);
    var k :| Accounted(rs[|steps|], k, convert);
    AccountConserves(rs[|steps|], k, convert);
  }

  lemma AccountConserves(r: Reader, k: Account, convert: Converter)
    requires Accounted(r, k, convert)
    ensures r.delivered + StillToCome(r, convert) == Converted(Passing(r.filter, r.arrived), convert)
  {
    ConvertedConcat(k.done, k.batch + k.later, convert);
    ConvertedConcat(k.batch, k.later, convert);
    match r.phase
    case Idle =>
      assert k.batch + k.later == k.later;
    case Converting(_, i, output) =>
      assert r.queue == k.batch[..i] + r.queue[i..];
      ConvertedConcat(k.batch[..i], r.queue[i..], convert);
    case Removing(_, left, output) =>
      assert r.queue[left..] == k.later;
  }

  // ------------------------------------------------------------------- the objects

  class StreamReader {
    const filter: Filter
    const apdus: GrowArray<Apdu>
    ghost var Repr: set<object>

    ghost predicate Valid()
      reads this, Repr
      ensures Valid() ==> this in Repr
    {
      && this in Repr && apdus in Repr
      && Repr == {this} + apdus.Repr && this !in apdus.Repr
      && apdus.Valid() && apdus.maxSize == 0
    }

    ghost function Queue(): seq<Apdu>
      requires Valid()
      reads Repr
    {
      apdus.Contents()
    }

    constructor (filterText: string)
      ensures Valid() && fresh(Repr) && Queue() == [] && filter == ParseFilter(filterText)
    {
      var f := ParseFilterText(filterText);
      filter := f;
      apdus := new GrowArray<Apdu>(10, 0, 10);
      new;
      Repr := {this} + apdus.Repr;
    }

    /** `DNP3Reader_onAPDU`: a copy of the unit is appended. */
    method OnApdu(a: Apdu)
      requires Valid()
      modifies Repr
      ensures Valid() && fresh(Repr - old(Repr)) && Queue() == old(Queue()) + [a]
    {
      var added := apdus.AddExpand(a);
      Repr := {this} + apdus.Repr;
    }

    /** `DNP3StreamReader_read` without interference: converts from the front, then removes from the back. */
    method Read(convert: Converter) returns (output: seq<string>)
      requires Valid()
      modifies Repr
      ensures Valid() && fresh(Repr - old(Repr))
      ensures output == Converted(old(Queue()), convert) && Queue() == []
    {
      var samplesSize := apdus.currentSize;
      ghost var queue := Queue();
      output := [];
      var i: int := 0;
      while i < samplesSize
        invariant 0 <= i <= samplesSize == |queue|
        invariant Valid() && Repr == old(Repr) && Queue() == queue
        invariant output == Converted(queue[..i], convert)
      {
        ConvertedSnoc(queue, i, convert);
        match convert(apdus.block[i]) {
          case None =>
          case Some(sample) => output := output + [sample];
        }
        i := i + 1;
      }
      assert queue[..i] == queue;
      i := i - 1;
      while i >= 0
        invariant -1 <= i < samplesSize
        invariant Valid() && Repr == old(Repr) && Queue() == queue[..i + 1]
      {
        var removed := apdus.RemoveByIndex(i);
        i := i - 1;
      }
    }
  }

  /** The registered listeners do not share state. */
  ghost predicate Separate(listeners: seq<StreamReader>)
    reads set l | l in listeners
    reads set l, o | l in listeners && o in l.Repr :: o
  {
    && (forall l | l in listeners :: l.Valid())
    && forall i, j | 0 <= i < j < |listeners| :: listeners[i].Repr !! listeners[j].Repr
  }

  /** The fan-out of `MessageBus::new*APDU`: every listener is asked, and those whose filter passes get the unit. */
  method Notify(listeners: seq<StreamReader>, a: Apdu)
    requires Separate(listeners)
    modifies set l, o | l in listeners && o in l.Repr :: o
    ensures Separate(listeners)
    ensures forall l | l in listeners ::
              l.Queue() == old(l.Queue()) + if Passes(l.filter, a) then [a] else []
  {
    hide StreamReader.Valid, StreamReader.Queue;
    var i := 0;
    while i < |listeners|
      invariant i <= |listeners| && Separate(listeners)
      invariant forall k | 0 <= k < |listeners| :: fresh(listeners[k].Repr - old(listeners[k].Repr))
      invariant forall k | 0 <= k < i ::
                  listeners[k].Queue() == old(listeners[k].Queue()) + if Passes(listeners[k].filter, a) then [a] else []
      invariant forall k | i <= k < |listeners| :: listeners[k].Queue() == old(listeners[k].Queue())
    {
      NotifyOne(listeners, i, a);
      i := i + 1;
    }
  }

  method NotifyOne(listeners: seq<StreamReader>, i: nat, a: Apdu)
    requires Separate(listeners) && i < |listeners|
    modifies listeners[i].Repr
    ensures Separate(listeners) && fresh(listeners[i].Repr - old(listeners[i].Repr))
    ensures listeners[i].Queue() == old(listeners[i].Queue()) + if Passes(listeners[i].filter, a) then [a] else []
    ensures forall k | 0 <= k < |listeners| && k != i ::
              listeners[k].Queue() == old(listeners[k].Queue()) && listeners[k].Repr == old(listeners[k].Repr)
  {
    hide StreamReader.Queue;
    forall k | 0 <= k < |listeners| && k != i
      ensures listeners[k] !in listeners[i].Repr && listeners[k].Repr !! listeners[i].Repr
    {
      assert listeners[k] in listeners && listeners[k].Valid();
    }
    var interested := FilterApdu(listeners[i].filter, a);
    if interested {
      listeners[i].OnApdu(a);
    }
  }
}
