/** The acceptance checklist of the Markdown report, and its agreement with the analyzer. */
module Report {
  import opened Wrappers
  import opened Model
  import opened Collections
  import opened VerdictSpec
  import opened Diagnosis
  import opened Meaning

  datatype Row = Row(title: string, failReasons: seq<Reason>, footnote: bool)

  datatype Cell = CellPass | CellFail | NotTrusted | NotAcSatisfying

  function AcRows(): seq<Row> {
    [Row("Zero new-connection failures", [NewConnFailure], false),
     Row("<=1 disruption window per pre-existing node", [SameConnTwoWindows, OverlappingNodeWindows], true),
     Row("Drops only on the rolling (pre-existing) node", [DropOnNonUpgradingNode], false),
     Row("Staggered, not mesh-wide (no cross-node overlap)", [OverlappingNodeWindows], false),
     Row("Auto-recovery within the configured bound", [PoolNotRecovered, RecoveryOverBound], false)]
  }

  method HasReason(res: Result, r: Reason) returns (b: bool)
    ensures b <==> res.reason == Some(r) || Reported(res.anomalies, r)
  {
    if res.reason == Some(r) {
      return true;
    }
    for k := 0 to |res.anomalies|
      invariant !Reported(res.anomalies[..k], r)
    {
      if res.anomalies[k].reason == r {
        assert res.anomalies[k] in res.anomalies;
        return true;
      }
      assert res.anomalies[..k + 1] == res.anomalies[..k] + [res.anomalies[k]];
    }
    assert res.anomalies[..|res.anomalies|] == res.anomalies;
    return false;
  }

  ghost predicate Named(res: Result, r: Reason) {
    res.reason == Some(r) || Reported(res.anomalies, r)
  }

  // What a row's cell reads.
  ghost function CellOf(res: Result, row: Row): Cell {
    if res.verdict == ERROR then NotTrusted
    else if !res.trigger.acSatisfying then NotAcSatisfying
    else if exists r :: r in row.failReasons && Named(res, r) then CellFail
    else CellPass
  }

  /** A cell decides exactly for trusted, satisfying runs, and then by the row's reasons. */
  method RowCell(res: Result, row: Row) returns (cell: Cell)
    ensures cell == CellOf(res, row)
    ensures cell == NotTrusted <==> res.verdict == ERROR
    ensures cell == NotAcSatisfying <==> res.verdict != ERROR && !res.trigger.acSatisfying
    ensures cell == CellFail ==> exists r :: r in row.failReasons && Named(res, r)
    ensures cell == CellPass ==> forall r :: r in row.failReasons ==> !Named(res, r)
  {
    if res.verdict == ERROR {
      return NotTrusted;
    }
    if !res.trigger.acSatisfying {
      return NotAcSatisfying;
    }
    for i := 0 to |row.failReasons|
      invariant forall r :: r in row.failReasons[..i] ==> !Named(res, r)
    {
      var present := HasReason(res, row.failReasons[i]);
      if present {
        assert row.failReasons[i] in row.failReasons;
        return CellFail;
      }
      assert row.failReasons[..i + 1] == row.failReasons[..i] + [row.failReasons[i]];
    }
    assert row.failReasons[..|row.failReasons|] == row.failReasons;
    return CellPass;
  }

  // One printed line; the heading bears a mark when the row has a footnote.
  datatype Line = Line(heading: string, cell: Cell)

  function Heading(row: Row): string {
    if row.footnote then row.title + " [1]" else row.title
  }

  // The printed lines of a list of rows.
  ghost predicate Prints(res: Result, rows: seq<Row>, lines: seq<Line>) {
    |lines| == |rows| && forall k :: 0 <= k < |lines| ==> lines[k] == Line(Heading(rows[k]), CellOf(res, rows[k]))
  }

  method WriteRows(res: Result, rows: seq<Row>) returns (lines: seq<Line>, footnote: bool)
    ensures Prints(res, rows, lines)
    ensures footnote <==> exists k :: 0 <= k < |rows| && rows[k].footnote
  {
    lines, footnote := [], false;
    for k := 0 to |rows|
      invariant Prints(res, rows[..k], lines)
      invariant footnote <==> exists i :: 0 <= i < k && rows[i].footnote
    {
      var heading := rows[k].title;
      if rows[k].footnote {
        heading := heading + " [1]";
        footnote := true;
      }
      var cell := RowCell(res, rows[k]);
      lines := lines + [Line(heading, cell)];
    }
    assert rows[..|rows|] == rows;
  }

  /** One decided line per row, in row order, and the footnote that a marked heading refers to. */
  method WriteACChecklist(res: Result) returns (lines: seq<Line>, footnote: bool)
    ensures Prints(res, AcRows(), lines)
    ensures footnote <==> exists k :: 0 <= k < |AcRows()| && AcRows()[k].footnote
  {
    lines, footnote := WriteRows(res, AcRows());
  }

  lemma NamedIsEarned(in_: Input, r: Reason)
    ensures Named(Outcome(in_), r) <==> Violates(in_, r)
  {
    VerdictExact(in_);
    LeadLaw(FactsOf(in_));
  }

  /** A row fails exactly when the input earns one of the reasons the row stands for. */
  lemma RowsAgree(in_: Input, k: nat)
    requires k < |AcRows()|
    ensures Outcome(in_).verdict != ERROR && in_.trigger.acSatisfying ==>
      (CellOf(Outcome(in_), AcRows()[k]) == CellFail <==>
        exists r :: r in AcRows()[k].failReasons && Violates(in_, r))
  {
    forall r ensures Named(Outcome(in_), r) <==> Violates(in_, r) {
      NamedIsEarned(in_, r);
    }
  }

  // Every FAIL-class reason has its row, and no row speaks of an ERROR.
  lemma RowsCoverFails(r: Reason)
    ensures !r.IsError() <==> exists k :: 0 <= k < |AcRows()| && r in AcRows()[k].failReasons
  {
    if !r.IsError() {
      var k := match r
        case NewConnFailure => 0
        case SameConnTwoWindows => 1
        case OverlappingNodeWindows => 3
        case DropOnNonUpgradingNode => 2
        case _ => 4;
      assert r in AcRows()[k].failReasons;
    }
  }

  ghost predicate AllPass(res: Result) {
    forall k :: 0 <= k < |AcRows()| ==> CellOf(res, AcRows()[k]) == CellPass
  }

  // The rows, over any result that names exactly the reasons that follow from f.
  lemma RowsFollow(res: Result, f: Facts)
    requires res.verdict == VerdictFor(Lead(f)) != ERROR && res.trigger.acSatisfying
    requires forall r :: Named(res, r) <==> Follows(f, r)
    ensures AllPass(res) <==> res.verdict == PASS
  {
    LeadLaw(f);
    if r :| Follows(f, r) {
      RowsCoverFails(r);
      var k :| 0 <= k < |AcRows()| && r in AcRows()[k].failReasons;
      assert CellOf(res, AcRows()[k]) == CellFail;
    }
  }

  /** The checklist is all PASS exactly when the verdict is. */
  lemma ChecklistAgrees(in_: Input)
    ensures Outcome(in_).verdict != ERROR && in_.trigger.acSatisfying ==>
      (AllPass(Outcome(in_)) <==> Outcome(in_).verdict == PASS)
  {
    VerdictExact(in_);
    forall r ensures Named(Outcome(in_), r) <==> Violates(in_, r) {
      NamedIsEarned(in_, r);
    }
    if Outcome(in_).verdict != ERROR && in_.trigger.acSatisfying {
      RowsFollow(Outcome(in_), FactsOf(in_));
    }
  }

  // The cell of a criterion that fails when bad.
  predicate Decides(cell: Cell, bad: bool) {
    cell == if bad then CellFail else CellPass
  }

  ghost predicate EarnsAny(in_: Input, k: Terms, rs: seq<Reason>) {
    exists r :: r in rs && Earned(in_.events, in_.windows, k, r)
  }

  lemma EarnsOne(in_: Input, k: Terms, r: Reason)
    ensures EarnsAny(in_, k, [r]) <==> Earned(in_.events, in_.windows, k, r)
  {
    assert r in [r];
  }

  lemma EarnsTwo(in_: Input, k: Terms, r: Reason, s: Reason)
    ensures EarnsAny(in_, k, [r, s]) <==> Earned(in_.events, in_.windows, k, r) || Earned(in_.events, in_.windows, k, s)
  {
    assert r in [r, s] && s in [r, s];
  }

  lemma RowDecides(in_: Input, i: nat, k: Terms)
    requires i < |AcRows()|
    requires k == Terms(in_.config.jitterTolerance, in_.config.recoveryBoundSeconds * 1_000_000_000,
                        in_.config.triggerPrereqError != "", in_.config.triggerFired)
    requires Outcome(in_).verdict != ERROR && in_.trigger.acSatisfying
    ensures Decides(CellOf(Outcome(in_), AcRows()[i]), EarnsAny(in_, k, AcRows()[i].failReasons))
  {
    RowsAgree(in_, i);
    forall r ensures Violates(in_, r) <==> Earned(in_.events, in_.windows, k, r) { EarnedExactly(in_, r); }
  }

  // The fault that line i of the checklist rules out.
  ghost predicate Criterion(in_: Input, k: Terms, i: nat) {
    match i
    case 0 => exists e :: e in in_.events && e.kind == NewConnAttemptFail
    case 1 => (exists c :: HitTwice(in_.events, in_.windows, k.eps, c)) || AnyOverlap(in_.windows, k.eps)
    case 2 => AnyStray(in_.events, in_.windows, k.eps)
    case 3 => AnyOverlap(in_.windows, k.eps)
    case _ => AnyLoss(in_.events, in_.windows, k.eps) || exists x :: AnyWait(in_.events, in_.windows, k.eps, x) && x > k.bound
  }

  lemma CriterionMeans(in_: Input, k: Terms, i: nat)
    requires i < 5
    ensures |AcRows()| == 5 && (EarnsAny(in_, k, AcRows()[i].failReasons) <==> Criterion(in_, k, i))
  {
    Titles();
    match i {
      case 0 => EarnsOne(in_, k, NewConnFailure);
      case 1 => EarnsTwo(in_, k, SameConnTwoWindows, OverlappingNodeWindows);
      case 2 => EarnsOne(in_, k, DropOnNonUpgradingNode);
      case 3 => EarnsOne(in_, k, OverlappingNodeWindows);
      case _ => EarnsTwo(in_, k, PoolNotRecovered, RecoveryOverBound);
    }
  }

  lemma Titles()
    ensures |AcRows()| == 5
    ensures Heading(AcRows()[0]) == "Zero new-connection failures" && AcRows()[0].failReasons == [NewConnFailure]
    ensures Heading(AcRows()[1]) == "<=1 disruption window per pre-existing node [1]"
      && AcRows()[1].failReasons == [SameConnTwoWindows, OverlappingNodeWindows]
    ensures Heading(AcRows()[2]) == "Drops only on the rolling (pre-existing) node"
      && AcRows()[2].failReasons == [DropOnNonUpgradingNode]
    ensures Heading(AcRows()[3]) == "Staggered, not mesh-wide (no cross-node overlap)"
      && AcRows()[3].failReasons == [OverlappingNodeWindows]
    ensures Heading(AcRows()[4]) == "Auto-recovery within the configured bound"
      && AcRows()[4].failReasons == [PoolNotRecovered, RecoveryOverBound]
  {
  }

  /**
   * The checklist of every trusted, satisfying run: five lines, each under its title and failing by
   * its own criterion on the events and windows.
   */
  lemma ChecklistMeans(in_: Input, lines: seq<Line>, k: Terms)
    requires k == Terms(in_.config.jitterTolerance, in_.config.recoveryBoundSeconds * 1_000_000_000,
                        in_.config.triggerPrereqError != "", in_.config.triggerFired)
    requires Outcome(in_).verdict != ERROR && in_.trigger.acSatisfying && Prints(Outcome(in_), AcRows(), lines)
    ensures |lines| == 5
    ensures lines[0].heading == "Zero new-connection failures"
    ensures lines[1].heading == "<=1 disruption window per pre-existing node [1]"
    ensures lines[2].heading == "Drops only on the rolling (pre-existing) node"
    ensures lines[3].heading == "Staggered, not mesh-wide (no cross-node overlap)"
    ensures lines[4].heading == "Auto-recovery within the configured bound"
    ensures forall i :: 0 <= i < 5 ==> Decides(lines[i].cell, Criterion(in_, k, i))
  {
    Titles();
    forall i | 0 <= i < 5 ensures lines[i].heading == Heading(AcRows()[i]) && Decides(lines[i].cell, Criterion(in_, k, i)) {
      RowDecides(in_, i, k);
      CriterionMeans(in_, k, i);
    }
  }
}
