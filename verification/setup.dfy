/** Input normalisation (mainwindow.cpp:164-215): bank rows become banks with
    ordered mode sets, debt rows become the n-by-n debt matrix, and the run
    aborts on the first configuration or reference error. */
module Setup {
  import opened Results
  import opened Text
  import opened ModeSets
  import opened Balances

  datatype Bank = Bank(name: string, modes: seq<string>)

  /** A row of the bank table; a cell the user never filled is None. */
  datatype BankRow = BankRow(name: Option<string>, modes: Option<string>)

  /** A row of the debt table: `debtor` owes `creditor` the given amount. */
  datatype DebtRow = DebtRow(debtor: Option<string>, creditor: Option<string>, amount: Option<int>)

  datatype SetupError =
    | EmptyTable              // the bank table has no rows at all
    | NoModes(bank: string)   // a named bank accepts no payment mode
    | TooFewBanks             // fewer than two named banks
    | UnknownBank(bank: string)  // a debt row names a bank that does not exist

  /** The comma-separated pieces of a mode cell, trimmed, empty ones dropped. */
  function Pieces(cell: string): seq<string> {
    NonEmptyTrimmed(Split(cell, ','))
  }

  function NonEmptyTrimmed(ps: seq<string>): seq<string> {
    if |ps| == 0 then []
    else if Trim(ps[0]) == "" then NonEmptyTrimmed(ps[1..])
    else [Trim(ps[0])] + NonEmptyTrimmed(ps[1..])
  }

  lemma {:induction false} NonEmptyTrimmedSpec(ps: seq<string>)
    ensures forall m :: m in NonEmptyTrimmed(ps) <==> m != "" && exists p :: p in ps && Trim(p) == m
    decreases |ps|
  {
    if |ps| > 0 {
      NonEmptyTrimmedSpec(ps[1..]);
      assert forall p :: p in ps <==> p == ps[0] || p in ps[1..];
    }
  }

  /** The mode set of a bank: the pieces of its mode cell, each kept once,
      in increasing order. */
  function ParseModes(cell: string): (r: seq<string>)
    ensures StrictlySorted(r)
  {
    FromList(Pieces(cell))
  }

  /** A bank's modes are exactly the non-empty trimmed comma-separated pieces
      of its mode cell, strictly increasing. */
  lemma ParseModesSpec(cell: string)
    ensures StrictlySorted(ParseModes(cell))
    ensures forall m :: m in ParseModes(cell) <==> m != "" && exists p :: p in Split(cell, ',') && Trim(p) == m
  {
    NonEmptyTrimmedSpec(Split(cell, ','));
  }

  /** The trimmed name of a bank row, or None when the row is skipped. */
  function RowName(row: BankRow): Option<string> {
    match row.name
    case None => None
    case Some(t) => if Trim(t) == "" then None else Some(Trim(t))
  }

  /** The modes of a bank row; a missing cell reads as empty text. */
  function RowModes(row: BankRow): seq<string> {
    match row.modes
    case None => ParseModes("")
    case Some(cell) => ParseModes(cell)
  }

  /** A named row whose mode cell yields no mode: setup aborts there. */
  predicate Modeless(row: BankRow) {
    RowName(row).Some? && |RowModes(row)| == 0
  }

  predicate NoModeless(rows: seq<BankRow>) {
    forall k :: 0 <= k < |rows| ==> !Modeless(rows[k])
  }

  /** The named rows, in table order. */
  function NamedRows(rows: seq<BankRow>): (r: seq<BankRow>)
    ensures forall row :: row in r ==> RowName(row).Some?
  {
    if |rows| == 0 then []
    else if RowName(rows[0]).Some? then [rows[0]] + NamedRows(rows[1..])
    else NamedRows(rows[1..])
  }

  predicate WellFormedBank(b: Bank) {
    b.name != "" && Trim(b.name) == b.name && |b.modes| > 0 && StrictlySorted(b.modes)
  }

  /** The bank loop (mainwindow.cpp:173-192), row by row. */
  function CollectBanks(rows: seq<BankRow>): (r: Result<seq<Bank>, SetupError>)
    ensures r.Failure? ==> r.error.NoModes?
  {
    if |rows| == 0 then Success([])
    else match RowName(rows[0])
      case None => CollectBanks(rows[1..])
      case Some(name) =>
        var modes := RowModes(rows[0]);
        if |modes| == 0 then Failure(NoModes(name))
        else match CollectBanks(rows[1..])
          case Failure(e) => Failure(e)
          case Success(rest) => Success([Bank(name, modes)] + rest)
  }

  /** The bank loop aborts at the first named row without modes, reporting
      that row's trimmed name; rows after it are never looked at. */
  lemma {:induction false} CollectBanksStopsAtFirstModeless(rows: seq<BankRow>, k: nat)
    requires k < |rows| && Modeless(rows[k])
    requires forall e :: 0 <= e < k ==> !Modeless(rows[e])
    ensures CollectBanks(rows) == Failure(NoModes(RowName(rows[k]).value))
    decreases k
  {
    if k > 0 {
      assert !Modeless(rows[0]);
      assert rows[1..][k - 1] == rows[k];
      CollectBanksStopsAtFirstModeless(rows[1..], k - 1);
    }
  }

  /** A successful bank loop met no named row without modes. */
  lemma {:induction false} CollectBanksSuccessNoModeless(rows: seq<BankRow>)
    requires CollectBanks(rows).Success?
    ensures NoModeless(rows)
    decreases |rows|
  {
    if |rows| > 0 {
      CollectBanksSuccessNoModeless(rows[1..]);
      assert forall k :: 1 <= k < |rows| ==> rows[k] == rows[1..][k - 1];
    }
  }

  /** Without a modeless row the loop yields one well-formed bank per named
      row, in table order, with that row's trimmed name and modes. */
  lemma {:induction false} CollectBanksKeepsNamedRows(rows: seq<BankRow>)
    requires NoModeless(rows)
    ensures CollectBanks(rows).Success?
    ensures var banks := CollectBanks(rows).value;
            && |banks| == |NamedRows(rows)|
            && forall j :: 0 <= j < |banks| ==>
                 && banks[j] == Bank(RowName(NamedRows(rows)[j]).value, RowModes(NamedRows(rows)[j]))
                 && WellFormedBank(banks[j])
    decreases |rows|
  {
    if |rows| > 0 {
      assert NoModeless(rows[1..]) by {
        assert forall k :: 0 <= k < |rows| - 1 ==> rows[1..][k] == rows[k + 1];
      }
      CollectBanksKeepsNamedRows(rows[1..]);
      var rest := CollectBanks(rows[1..]).value;
      var named := NamedRows(rows[1..]);
      if RowName(rows[0]).Some? {
        var b := Bank(RowName(rows[0]).value, RowModes(rows[0]));
        assert !Modeless(rows[0]);
        assert WellFormedBank(b) by {
          TrimIdempotent(rows[0].name.value);
        }
        assert CollectBanks(rows) == Success([b] + rest);
        assert NamedRows(rows) == [rows[0]] + named;
        forall j | 0 <= j < |rest| + 1
          ensures ([b] + rest)[j] == Bank(RowName(([rows[0]] + named)[j]).value, RowModes(([rows[0]] + named)[j]))
          ensures WellFormedBank(([b] + rest)[j])
        {
          if j > 0 {
            assert ([b] + rest)[j] == rest[j - 1];
            assert ([rows[0]] + named)[j] == named[j - 1];
          }
        }
      }
    }
  }

  /** Bank validation (mainwindow.cpp:168-197): an empty table, then the
      bank loop, then the count of banks; the debt table is not looked at
      before these pass. */
  function BuildBanks(rows: seq<BankRow>): (r: Result<seq<Bank>, SetupError>)
    ensures r == Failure(EmptyTable) <==> |rows| == 0
    ensures r.Success? ==> |r.value| >= 2 && forall b :: b in r.value ==> WellFormedBank(b)
    ensures r == Failure(TooFewBanks) <==> |rows| > 0 && NoModeless(rows) && |NamedRows(rows)| < 2
  {
    if |rows| == 0 then Failure(EmptyTable)
    else match CollectBanks(rows)
      case Failure(e) =>
        if NoModeless(rows) then
          CollectBanksKeepsNamedRows(rows);
          Failure(e)
        else Failure(e)
      case Success(banks) =>
        CollectBanksSuccessNoModeless(rows);
        CollectBanksKeepsNamedRows(rows);
        if |banks| < 2 then Failure(TooFewBanks)
        else
          assert forall b :: b in banks ==> exists j :: 0 <= j < |banks| && banks[j] == b;
          Success(banks)
  }

  /** The bank-name index (mainwindow.cpp:190): a later bank with the same name
      replaces an earlier one, so a name resolves to its last position. */
  function LastIndexOf(banks: seq<Bank>, name: string): (r: Option<nat>)
    ensures r.None? <==> forall j :: 0 <= j < |banks| ==> banks[j].name != name
    ensures r.Some? ==> r.value < |banks| && banks[r.value].name == name
                        && forall j :: r.value < j < |banks| ==> banks[j].name != name
  {
    if |banks| == 0 then None
    else if banks[|banks| - 1].name == name then Some(|banks| - 1)
    else LastIndexOf(banks[..|banks| - 1], name)
  }

  /** A debt row the loop reads rather than skips: all three cells exist and
      both trimmed names are non-empty. */
  predicate Complete(row: DebtRow) {
    && row.debtor.Some? && row.creditor.Some? && row.amount.Some?
    && Trim(row.debtor.value) != "" && Trim(row.creditor.value) != ""
  }

  /** A read row that names a bank not in the index. */
  predicate Unknown(banks: seq<Bank>, row: DebtRow) {
    && Complete(row)
    && (LastIndexOf(banks, Trim(row.debtor.value)).None?
        || LastIndexOf(banks, Trim(row.creditor.value)).None?)
  }

  /** The name an unknown row is reported with: its debtor when the debtor is
      unknown, otherwise its creditor. */
  function MissingName(banks: seq<Bank>, row: DebtRow): string
    requires Unknown(banks, row)
  {
    if LastIndexOf(banks, Trim(row.debtor.value)).None? then Trim(row.debtor.value)
    else Trim(row.creditor.value)
  }

  /** A read row recording that bank i owes bank j. */
  predicate Names(banks: seq<Bank>, row: DebtRow, i: nat, j: nat) {
    && Complete(row)
    && LastIndexOf(banks, Trim(row.debtor.value)) == Some(i)
    && LastIndexOf(banks, Trim(row.creditor.value)) == Some(j)
  }

  /** What G[i][j] holds after the rows: the amount of the last row naming
      (i, j), or 0 when none does. */
  function LastAmount(banks: seq<Bank>, rows: seq<DebtRow>, i: nat, j: nat): int {
    if |rows| == 0 then 0
    else if Names(banks, rows[|rows| - 1], i, j) then rows[|rows| - 1].amount.value
    else LastAmount(banks, rows[..|rows| - 1], i, j)
  }

  /** The debt loop (mainwindow.cpp:199-215): start from the zero matrix, skip rows
      with a missing cell or an empty name, abort on the first unknown name,
      and otherwise overwrite G[debtor][creditor] with the row's amount. */
  method BuildMatrix(banks: seq<Bank>, rows: seq<DebtRow>) returns (r: Result<Matrix, SetupError>)
    ensures r.Failure? <==> exists k :: 0 <= k < |rows| && Unknown(banks, rows[k])
    ensures r.Failure? ==>
              exists k :: 0 <= k < |rows| && Unknown(banks, rows[k])
                          && (forall e :: 0 <= e < k ==> !Unknown(banks, rows[e]))
                          && r.error == UnknownBank(MissingName(banks, rows[k]))
    ensures r.Success? ==> IsSquare(r.value, |banks|)
    ensures r.Success? ==> forall i, j :: 0 <= i < |banks| && 0 <= j < |banks| ==>
                             r.value[i][j] == LastAmount(banks, rows, i, j)
  {
    var n := |banks|;
    var G: Matrix := seq(n, _ => seq(n, _ => 0));
    var k := 0;
    while k < |rows|
      invariant 0 <= k <= |rows|
      invariant IsSquare(G, n)
      invariant forall e :: 0 <= e < k ==> !Unknown(banks, rows[e])
      invariant forall i, j :: 0 <= i < n && 0 <= j < n ==> G[i][j] == LastAmount(banks, rows[..k], i, j)
    {
      var row := rows[k];
      assert rows[..k + 1][..k] == rows[..k] && rows[..k + 1][k] == row;
      if row.debtor.Some? && row.creditor.Some? && row.amount.Some? {
        var a := Trim(row.debtor.value);
        var b := Trim(row.creditor.value);
        var am := row.amount.value;
        if a != "" && b != "" {
          var ia := LastIndexOf(banks, a);
          var ib := LastIndexOf(banks, b);
          if ia.None? || ib.None? {
            var miss := if ia.None? then a else b;
            return Failure(UnknownBank(miss));
          }
          G := G[ia.value := G[ia.value][ib.value := am]];
        }
      }
      k := k + 1;
    }
    assert rows[..k] == rows;
    r := Success(G);
  }

  /** A later row for the same pair overwrites an earlier one: G[i][j] is the
      amount of the last row naming (i, j). */
  lemma {:induction false} LastRowWins(banks: seq<Bank>, rows: seq<DebtRow>, i: nat, j: nat, k: nat)
    requires k < |rows| && Names(banks, rows[k], i, j)
    requires forall e :: k < e < |rows| ==> !Names(banks, rows[e], i, j)
    ensures LastAmount(banks, rows, i, j) == rows[k].amount.value
    decreases |rows|
  {
    var last := |rows| - 1;
    if k < last {
      LastRowWins(banks, rows[..last], i, j, k);
    }
  }

  /** A pair that no read row names keeps its zero. */
  lemma {:induction false} UnnamedPairIsZero(banks: seq<Bank>, rows: seq<DebtRow>, i: nat, j: nat)
    requires forall e :: 0 <= e < |rows| ==> !Names(banks, rows[e], i, j)
    ensures LastAmount(banks, rows, i, j) == 0
    decreases |rows|
  {
    if |rows| > 0 {
      UnnamedPairIsZero(banks, rows[..|rows| - 1], i, j);
    }
  }
}
