/** The `withdraw:process-scheduled` console command: runs the sweep and
    reports its counters as console lines and an exit status. */
module ProcessCommand {
  import opened Common
  import opened Model
  import opened Persistence
  import opened WithdrawSpec
  import WithdrawService

  /** The console styles the command writes with (`line(.., 'info')`,
      `line(.., 'comment')` and `error(..)`). */
  datatype Style = Info | Comment | Error
  datatype Line = Line(style: Style, text: string)

  const STARTING := Line(Info, "Processando saques agendados...")
  const NOTHING_TO_DO := Line(Comment, "Sem saques agendados para processar.")

  function ProcessedLine(n: nat): Line {
    Line(Info, "Processados: " + NatToString(n))
  }

  function FailedLine(n: nat): Line {
    Line(Error, "Falha: " + NatToString(n))
  }

  function ErrorLine(e: ErrorEntry): Line {
    Line(Error, "  - " + e.withdrawId + ": " + e.error)
  }

  /** One line per error entry, in the entries' order. */
  function ErrorLines(errors: seq<ErrorEntry>): (lines: seq<Line>)
    ensures |lines| == |errors|
    ensures forall i :: 0 <= i < |errors| ==> lines[i] == ErrorLine(errors[i])
    decreases |errors|
  {
    if errors == [] then [] else ErrorLines(errors[..|errors| - 1]) + [ErrorLine(errors[|errors| - 1])]
  }

  datatype Report = Report(lines: seq<Line>, exit: int)

  /** What `handle()` writes after the opening line, and what it returns,
      for the sweep's `$results`. */
  function Reported(r: Results): (rep: Report)
    ensures rep.exit == (if r.failed > 0 then 1 else 0)
  {
    if r.processed == 0 && r.failed == 0 then Report([NOTHING_TO_DO], 0)
    else
      var processed := if r.processed > 0 then [ProcessedLine(r.processed)] else [];
      var failed := if r.failed > 0 then [FailedLine(r.failed)] + ErrorLines(r.errors) else [];
      Report(processed + failed, if r.failed > 0 then 1 else 0)
  }

  /** The reporting half of `handle()`, line by line. */
  method WriteReport(r: Results) returns (lines: seq<Line>, exit: int)
    ensures Reported(r) == Report(lines, exit)
  {
    if r.processed == 0 && r.failed == 0 {
      return [NOTHING_TO_DO], 0;
    }
    lines := [];
    if r.processed > 0 {
      lines := lines + [ProcessedLine(r.processed)];
    }
    if r.failed > 0 {
      lines := lines + [FailedLine(r.failed)];
      ghost var head := lines;
      var i := 0;
      while i < |r.errors|
        invariant 0 <= i <= |r.errors|
        invariant lines == head + ErrorLines(r.errors[..i])
      {
        assert r.errors[..i + 1][..i] == r.errors[..i];
        lines := lines + [ErrorLine(r.errors[i])];
        i := i + 1;
      }
      assert r.errors[..i] == r.errors;
    }
    exit := if r.failed > 0 then 1 else 0;
  }

  /** How the command ends: with an exit status, or with the exception that
      escaped the sweep. */
  datatype Ending = Exited(code: int) | Crashed(failure: Failure)

  /** `handle()`: the opening line, the sweep at time `now`, the report. */
  method Handle(db: Database, now: Time, faults: map<Id, SettleFaults>)
    returns (lines: seq<Line>, ending: Ending, notices: seq<Notice>, ghost selected: seq<Withdraw>)
    requires db.saved.None? && db.tables.Valid()
    modifies db
    ensures db.saved == None
    ensures IsDueSelection(selected, old(db.tables), now)
    ensures var s := Sweep(old(db.tables), selected, faults);
            && db.tables == s.tables && notices == s.notices
            && (s.aborted.Some? ==> lines == [STARTING] && ending == Crashed(s.aborted.value))
            && (s.aborted.None? ==>
                  var rep := Reported(s.results);
                  lines == [STARTING] + rep.lines && ending == Exited(rep.exit))
  {
    lines := [STARTING];
    var outcome;
    outcome, notices, selected := WithdrawService.ProcessScheduledWithdraws(db, now, faults);
    match outcome
    case Aborted(f) =>
      ending := Crashed(f);
    case Completed(results) =>
      var more, exit := WriteReport(results);
      lines := lines + more;
      ending := Exited(exit);
  }

  // ---------------------------------------------------------------------------
  // Properties of the report

  /** With nothing processed and nothing failed the command says so and succeeds. */
  lemma NothingToDo(r: Results)
    requires r.processed == 0 && r.failed == 0
    ensures Reported(r) == Report([Line(Comment, "Sem saques agendados para processar.")], 0)
  {
  }

  /** The exit status is 1 exactly when some withdraw failed. */
  lemma ExitIffFailed(r: Results)
    ensures Reported(r).exit == 1 <==> r.failed > 0
    ensures Reported(r).exit == 0 <==> r.failed == 0
  {
  }

  /** The processed count is printed exactly when it is positive, and then first. */
  lemma ProcessedLineIff(r: Results)
    ensures ProcessedLine(r.processed) in Reported(r).lines <==> r.processed > 0
    ensures r.processed > 0 ==> Reported(r).lines[0] == ProcessedLine(r.processed)
  {
    var rep := Reported(r);
    if r.processed == 0 {
      assert forall i :: 0 <= i < |rep.lines| ==> rep.lines[i].style != Info;
    }
  }

  /** On failure the count is followed by one line per error entry, in order,
      and these are the report's last lines. */
  lemma FailureLines(r: Results)
    requires r.failed > 0
    ensures var lines := Reported(r).lines;
            var k := |lines| - |r.errors|;
            && k >= 1 && lines[k - 1] == Line(Error, "Falha: " + NatToString(r.failed))
            && forall i :: 0 <= i < |r.errors| ==> lines[k + i] == Line(Error, "  - " + r.errors[i].withdrawId + ": " + r.errors[i].error)
  {
  }

  /** After a sweep that ran to the end, the command succeeds exactly when
      every selected withdraw was settled. */
  lemma SucceedsIffAllSettled(t: Tables, due: seq<Withdraw>, faults: map<Id, SettleFaults>)
    requires Sweep(t, due, faults).aborted.None?
    ensures var r := Sweep(t, due, faults).results;
            Reported(r).exit == 0 <==> r.processed == |due|
    ensures var r := Sweep(t, due, faults).results;
            Reported(r).exit == 1 <==> r.errors != []
  {
  }
}
