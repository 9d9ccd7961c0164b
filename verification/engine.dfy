/** The non-UI body of MainWindow::calculateMinCashFlow (mainwindow.cpp:163-259):
    validate and normalise the tables, aggregate balances, run the loop. */
module Engine {
  import opened Results
  import opened Balances
  import opened Setup
  import opened Selection
  import opened Settlement

  /** Everything one successful run produces. */
  datatype Run = Run(banks: seq<Bank>, debts: Matrix, initial: seq<int>, plan: seq<Transfer>, final: seq<int>)

  /** The mode sets of the banks, by position. */
  function ModesOf(banks: seq<Bank>): (modes: seq<seq<string>>)
    requires forall b :: b in banks ==> WellFormedBank(b)
    ensures |modes| == |banks| && ModeSetsValid(modes)
    ensures forall i :: 0 <= i < |banks| ==> modes[i] == banks[i].modes
  {
    var modes := seq(|banks|, i requires 0 <= i < |banks| => banks[i].modes);
    assert forall i :: 0 <= i < |banks| ==> banks[i] in banks && modes[i] == banks[i].modes;
    assert forall i :: 0 <= i < |banks| ==> WellFormedBank(banks[i]);
    modes
  }

  method CalculateMinCashFlow(bankRows: seq<BankRow>, debtRows: seq<DebtRow>) returns (r: Result<Run, SetupError>)
    ensures BuildBanks(bankRows).Failure? ==> r == Failure(BuildBanks(bankRows).error)
    ensures BuildBanks(bankRows).Success? ==>
              (r.Failure? <==> exists k :: 0 <= k < |debtRows| && Unknown(BuildBanks(bankRows).value, debtRows[k]))
    ensures r.Failure? ==> (r.error.UnknownBank? <==> BuildBanks(bankRows).Success?)
    ensures r.Failure? && BuildBanks(bankRows).Success? ==>
              var banks := BuildBanks(bankRows).value;
              exists k :: 0 <= k < |debtRows| && Unknown(banks, debtRows[k])
                          && (forall e :: 0 <= e < k ==> !Unknown(banks, debtRows[e]))
                          && r.error == UnknownBank(MissingName(banks, debtRows[k]))
    ensures r.Success? ==>
              var run := r.value;
              var n := |run.banks|;
              && BuildBanks(bankRows) == Success(run.banks)
              && IsSquare(run.debts, n)
              && (forall i, j :: 0 <= i < n && 0 <= j < n ==> run.debts[i][j] == LastAmount(run.banks, debtRows, i, j))
              && |run.initial| == n
              && (forall i :: 0 <= i < n ==> run.initial[i] == ColSum(run.debts, i) - Sum(run.debts[i]))
              && Sum(run.initial) == 0
              && run.plan == Rounds(ModesOf(run.banks), Start(run.initial), Ceiling).last.plan
              && run.final == Rounds(ModesOf(run.banks), Start(run.initial), Ceiling).last.net
              && Ledger(run.initial, run.plan, run.final)
              && (forall k :: 0 <= k < |run.plan| ==>
                    && run.plan[k].amount > 0
                    && run.plan[k].payer < n && run.plan[k].payee < n
                    && ModeAccepted(ModesOf(run.banks), run.plan[k]))
              && (|run.plan| == 0 <==> AllZero(run.initial))
              && (NonZeroCount(run.initial) <= Ceiling ==> AllZero(run.final))
  {
    var built := BuildBanks(bankRows);
    if built.Failure? {
      return Failure(built.error);
    }
    var banks := built.value;
    var n := |banks|;
    var matrix := BuildMatrix(banks, debtRows);
    if matrix.Failure? {
      return Failure(matrix.error);
    }
    var G := matrix.value;
    var initial := Aggregate(G, n);
    var modes := ModesOf(banks);
    var plan, final, rounds := Settle(modes, initial);
    r := Success(Run(banks, G, initial, plan, final));
  }
}
