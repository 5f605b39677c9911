/** The `3d-printer` exercise: a printer whose state is a type parameter
    (a typestate), so that each operation can only be called in the one
    state it belongs to, and a driver that runs one hundred print jobs.

    Here the state is a field, and each operation requires the state its
    Rust `impl` block names: a call the Rust compiler would refuse is a
    call whose precondition fails. */
module Print3D {
  import opened Wrappers

  /** `ErrorState`, `IdleState`, `PrintingState`, `ProductReadyState`. */
  datatype State = Idle | Printing | Error | ProductReady

  /** `Printer3D<S>`: it holds nothing but its state marker. */
  datatype Printer3D = Printer3D(state: State)

  /** `into_state`: the same printer, in state `s`. */
  function IntoState(p: Printer3D, s: State): (r: Printer3D)
    ensures r.state == s
  {
    Printer3D(s)
  }

  /** `out_of_filament`, given the random draw from `0..100` it makes. */
  predicate OutOfFilament(draw: nat)
    requires draw < 100
    ensures OutOfFilament(draw) <==> draw in {96, 97, 98, 99}
  {
    draw > 95
  }

  /** Four of the hundred possible draws report an empty spool. */
  lemma OutOfFilamentOdds()
    ensures (set d: nat | d < 100 && OutOfFilament(d)) == {96, 97, 98, 99}
    ensures |set d: nat | d < 100 && OutOfFilament(d)| == 4
  {
    var s := set d: nat | d < 100 && OutOfFilament(d);
    assert forall d :: d in s <==> d in {96, 97, 98, 99};
    assert s == {96, 97, 98, 99};
  }

  /** `Printer3D::new`. */
  function New(): (p: Printer3D)
    ensures p.state == Idle
  {
    Printer3D(Idle)
  }

  /** `Default::default`, which calls `new`. */
  function Default(): (p: Printer3D)
    ensures p.state == Idle
  {
    New()
  }

  /** `start_print`, only on an idle printer. */
  function StartPrint(p: Printer3D): (r: Printer3D)
    requires p.state == Idle
    ensures r.state == Printing
  {
    IntoState(p, Printing)
  }

  /** `check_filament`, only on a printing printer: `Err` with the printer
      in its error state when the draw says the filament is out, otherwise
      `Ok` with the printer still printing. */
  function CheckFilament(p: Printer3D, draw: nat): (r: Result<Printer3D, Printer3D>)
    requires p.state == Printing && draw < 100
    ensures r.Err? <==> draw > 95
    ensures r.Ok? ==> r.value.state == Printing
    ensures r.Err? ==> r.error.state == Error
  {
    if OutOfFilament(draw) then Err(IntoState(p, Error)) else Ok(p)
  }

  /** `finish_print`, only on a printing printer. */
  function FinishPrint(p: Printer3D): (r: Printer3D)
    requires p.state == Printing
    ensures r.state == ProductReady
  {
    IntoState(p, ProductReady)
  }

  /** `reset`, only on a printer in its error state. */
  function Reset(p: Printer3D): (r: Printer3D)
    requires p.state == Error
    ensures r.state == Idle
  {
    IntoState(p, Idle)
  }

  /** `retrieve_product`, only on a printer whose product is ready. */
  function RetrieveProduct(p: Printer3D): (r: Printer3D)
    requires p.state == ProductReady
    ensures r.state == Idle
  {
    IntoState(p, Idle)
  }

  /** The lines the operations print. */
  datatype Line = CreateLine | StartLine | OutOfFilamentLine | FinishLine | ResetLine | RetrieveLine

  function Text(l: Line): string
  {
    match l
    case CreateLine => "Create Printer3D"
    case StartLine => "Start the print job..."
    case OutOfFilamentLine => "Out of filament!"
    case FinishLine => "Finish the print job..."
    case ResetLine => "Reset the printer!"
    case RetrieveLine => "Retrieve product!"
  }

  /** The typestate as a transition table: the state after the operation
      that prints `l`, or `None` where no `impl` block offers it. */
  function Next(s: State, l: Line): Option<State>
  {
    match (s, l)
    case (Idle, StartLine) => Some(Printing)
    case (Printing, OutOfFilamentLine) => Some(Error)
    case (Printing, FinishLine) => Some(ProductReady)
    case (Error, ResetLine) => Some(Idle)
    case (ProductReady, RetrieveLine) => Some(Idle)
    case _ => None
  }

  /** The table agrees with the operations: each is offered exactly in the
      state it requires, and leads to the state it returns. */
  lemma NextMatchesOperations(p: Printer3D)
    ensures Next(p.state, StartLine).Some? <==> p.state == Idle
    ensures p.state == Idle ==> Next(p.state, StartLine) == Some(StartPrint(p).state)
    ensures Next(p.state, FinishLine).Some? <==> p.state == Printing
    ensures p.state == Printing ==> Next(p.state, FinishLine) == Some(FinishPrint(p).state)
    ensures Next(p.state, OutOfFilamentLine).Some? <==> p.state == Printing
    ensures p.state == Printing ==> Next(p.state, OutOfFilamentLine) == Some(CheckFilament(p, 99).error.state)
    ensures Next(p.state, ResetLine).Some? <==> p.state == Error
    ensures p.state == Error ==> Next(p.state, ResetLine) == Some(Reset(p).state)
    ensures Next(p.state, RetrieveLine).Some? <==> p.state == ProductReady
    ensures p.state == ProductReady ==> Next(p.state, RetrieveLine) == Some(RetrieveProduct(p).state)
  {
  }

  /** Runs the lines through the table from `s`: `None` as soon as one of
      them is not offered. */
  function Run(s: State, ls: seq<Line>): Option<State>
    decreases |ls|
  {
    if ls == [] then Some(s)
    else
      match Next(s, ls[0])
      case None => None
      case Some(t) => Run(t, ls[1..])
  }

  lemma {:induction false} RunAppend(s: State, a: seq<Line>, b: seq<Line>)
    requires Run(s, a).Some?
    ensures Run(s, a + b) == Run(Run(s, a).value, b)
    decreases |a|
  {
    if a == [] {
      assert a + b == b;
    } else {
      assert (a + b)[0] == a[0] && (a + b)[1..] == a[1..] + b;
      RunAppend(Next(s, a[0]).value, a[1..], b);
    }
  }

  /** What one iteration of the driver prints, given the draw
      `check_filament` makes. */
  function JobLog(draw: nat): (log: seq<Line>)
    requires draw < 100
  {
    if OutOfFilament(draw) then [StartLine, OutOfFilamentLine, ResetLine]
    else [StartLine, FinishLine, RetrieveLine]
  }

  predicate ValidDraws(draws: seq<nat>)
  {
    forall i | 0 <= i < |draws| :: draws[i] < 100
  }

  /** What a run of jobs prints, one job per draw. */
  function SessionLog(draws: seq<nat>): seq<Line>
    requires ValidDraws(draws)
    decreases |draws|
  {
    if draws == [] then []
    else SessionLog(draws[..|draws| - 1]) + JobLog(draws[|draws| - 1])
  }

  /** Number of draws that report an empty spool. */
  function Failures(draws: seq<nat>): nat
    decreases |draws|
  {
    if draws == [] then 0
    else Failures(draws[..|draws| - 1]) + (if draws[|draws| - 1] > 95 then 1 else 0)
  }

  /** Number of times `l` occurs in `ls`. */
  function Occurrences(ls: seq<Line>, l: Line): nat
    decreases |ls|
  {
    if ls == [] then 0
    else Occurrences(ls[..|ls| - 1], l) + (if ls[|ls| - 1] == l then 1 else 0)
  }

  lemma {:induction false} OccurrencesAppend(a: seq<Line>, b: seq<Line>, l: Line)
    ensures Occurrences(a + b, l) == Occurrences(a, l) + Occurrences(b, l)
    decreases |b|
  {
    if b == [] {
      assert a + b == a;
    } else {
      assert (a + b)[..|a + b| - 1] == a + b[..|b| - 1];
      OccurrencesAppend(a, b[..|b| - 1], l);
    }
  }

  lemma FailuresBound(draws: seq<nat>)
    ensures Failures(draws) <= |draws|
  {
  }

  /** One job takes the printer from idle back to idle, printing each line
      once: a reset after a failed draw, a finished and retrieved print
      otherwise. */
  lemma JobFollowsTypestate(draw: nat)
    requires draw < 100
    ensures Run(Idle, JobLog(draw)) == Some(Idle)
    ensures Occurrences(JobLog(draw), StartLine) == 1
    ensures Occurrences(JobLog(draw), ResetLine) == (if draw > 95 then 1 else 0)
    ensures Occurrences(JobLog(draw), OutOfFilamentLine) == (if draw > 95 then 1 else 0)
    ensures Occurrences(JobLog(draw), RetrieveLine) == (if draw > 95 then 0 else 1)
    ensures Occurrences(JobLog(draw), FinishLine) == (if draw > 95 then 0 else 1)
  {
    var x, y, z := StartLine, if draw > 95 then OutOfFilamentLine else FinishLine,
                   if draw > 95 then ResetLine else RetrieveLine;
    assert JobLog(draw) == [x, y, z];
    assert [x, y, z][1..] == [y, z] && [y, z][1..] == [z] && [z][1..] == [];
    var mid := if draw > 95 then Error else ProductReady;
    assert Run(mid, [z]) == Run(Idle, []);
    assert Run(Printing, [y, z]) == Run(mid, [z]);
    assert Run(Idle, [x, y, z]) == Run(Printing, [y, z]);
    forall l: Line
      ensures Occurrences([x, y, z], l) == (if x == l then 1 else 0) + (if y == l then 1 else 0) + (if z == l then 1 else 0)
    {
      assert [x, y, z][..2] == [x, y] && [x, y][..1] == [x] && [x][..0] == [];
      assert Occurrences([x], l) == if x == l then 1 else 0;
      assert Occurrences([x, y], l) == Occurrences([x], l) + if y == l then 1 else 0;
    }
  }

  /** Every session follows the typestate from idle back to idle: each job
      starts a print once, and ends either in a reset (when the draw fails)
      or in a finished print whose product is retrieved. */
  lemma {:induction false} SessionFollowsTypestate(draws: seq<nat>)
    requires ValidDraws(draws)
    ensures Run(Idle, SessionLog(draws)) == Some(Idle)
    ensures Occurrences(SessionLog(draws), StartLine) == |draws|
    ensures Occurrences(SessionLog(draws), ResetLine) == Failures(draws)
    ensures Occurrences(SessionLog(draws), OutOfFilamentLine) == Failures(draws)
    ensures Occurrences(SessionLog(draws), RetrieveLine) == |draws| - Failures(draws)
    ensures Occurrences(SessionLog(draws), FinishLine) == |draws| - Failures(draws)
    decreases |draws|
  {
    if draws != [] {
      var init, last := draws[..|draws| - 1], draws[|draws| - 1];
      SessionFollowsTypestate(init);
      assert draws == init + [last];
      var a, b := SessionLog(init), JobLog(last);
      RunAppend(Idle, a, b);
      JobFollowsTypestate(last);
      forall l: Line ensures Occurrences(a + b, l) == Occurrences(a, l) + Occurrences(b, l) {
        OccurrencesAppend(a, b, l);
      }
      FailuresBound(init);
    }
  }

  /** `main` with the draws `check_filament` makes in turn: one hundred
      jobs, each started on an idle printer and brought back to idle. The
      printer ends idle, `count` reaches 100, and the lines printed are
      "Create Printer3D" followed by each job's log. */
  method RunJobs(draws: seq<nat>) returns (printer: Printer3D, count: nat, log: seq<Line>)
    requires |draws| == 100 && ValidDraws(draws)
    ensures count == 100
    ensures printer.state == Idle
    ensures log == [CreateLine] + SessionLog(draws)
  {
    printer := New();
    log := [CreateLine];
    count := 0;
    while count < 100
      invariant count <= 100
      invariant printer.state == Idle
      invariant log == [CreateLine] + SessionLog(draws[..count])
    {
      var printingPrinter := StartPrint(printer);
      log := log + [StartLine];
      var checked := CheckFilament(printingPrinter, draws[count]);
      match checked {
        case Err(p) =>
          log := log + [OutOfFilamentLine];
          printer := Reset(p);
          log := log + [ResetLine];
        case Ok(p) =>
          var ready := FinishPrint(p);
          log := log + [FinishLine];
          printer := RetrieveProduct(ready);
          log := log + [RetrieveLine];
      }
      assert draws[..count + 1][..count] == draws[..count];
      count := count + 1;
    }
    assert draws[..100] == draws;
  }
}
