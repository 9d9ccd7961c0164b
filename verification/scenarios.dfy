/** Concrete runs of the model on small inputs. */
module Scenarios {
  import opened Results
  import opened ModeSets
  import opened Balances
  import opened Setup
  import opened Selection
  import opened Settlement

  /** A owes B 100 but accepts only Cash while B accepts only Wire: the debt
      goes A to World_Bank over Cash, then World_Bank to B over Wire, and
      every bank is settled after that one round. */
  lemma FallbackThroughWorldBank()
    ensures var modes := [["Wire"], ["Cash"], ["Wire"]];
            ModeSetsValid(modes)
            && Step(modes, State([0, -100, 100], [], 1))
               == Continue(State([0, 0, 0], [Transfer(1, 0, 100, "Cash"), Transfer(0, 2, 100, "Wire")], 3))
  {
  }

  /** A accepts Cash and Wire and B accepts Wire: one direct transfer of 100
      over Wire. */
  lemma DirectOverCommonMode()
    ensures var modes := [["Wire"], ["Cash", "Wire"], ["Wire"]];
            ModeSetsValid(modes)
            && Step(modes, State([0, -100, 100], [], 1))
               == Continue(State([0, 0, 0], [Transfer(1, 2, 100, "Wire")], 3))
  {
    var modes := [["Wire"], ["Cash", "Wire"], ["Wire"]];
    var net := [0, -100, 100];
    assert Text.Less("Cash", "Wire");
    assert MinIndex(net) == 1;
    assert Eligible(net, modes, 1, 2) by {
      assert "Wire" in modes[1] && "Wire" in modes[2];
    }
    assert FirstCommon(modes[1], modes[2]) == Some("Wire") by {
      assert IsLeastCommon(modes[1], modes[2], "Wire") by {
        assert forall c :: c in modes[2] ==> c == "Wire";
      }
      LeastCommonUnique(modes[1], modes[2], "Wire", FirstCommon(modes[1], modes[2]).value);
    }
    assert !Eligible(net, modes, 1, 0) && !Eligible(net, modes, 1, 1);
    assert MaxIndex(net, modes, 1) == (2, "Wire");
  }

  /** The whole loop on the same banks: one round, then `bal` equals the
      number of banks, so the plan is the single direct transfer. */
  lemma DirectRunIsOneTransfer()
    ensures var modes := [["Wire"], ["Cash", "Wire"], ["Wire"]];
            ModeSetsValid(modes)
            && Rounds(modes, Start([0, -100, 100]), Ceiling)
               == Halt(State([0, 0, 0], [Transfer(1, 2, 100, "Wire")], 3), 1)
  {
    DirectOverCommonMode();
    var modes := [["Wire"], ["Cash", "Wire"], ["Wire"]];
    var last := State([0, 0, 0], [Transfer(1, 2, 100, "Wire")], 3);
    assert ZeroCount([0, -100, 100]) == 1 by {
      assert [0, -100, 100][..2] == [0, -100] && [0, -100][..1] == [0] && [0][..0] == [];
    }
    assert Rounds(modes, last, Ceiling - 1) == Halt(last, 0);
  }

  /** The whole loop when the debtor shares no mode with the creditor: the
      plan is the two hops through World_Bank. */
  lemma FallbackRunIsTwoHops()
    ensures var modes := [["Wire"], ["Cash"], ["Wire"]];
            ModeSetsValid(modes)
            && Rounds(modes, Start([0, -100, 100]), Ceiling)
               == Halt(State([0, 0, 0], [Transfer(1, 0, 100, "Cash"), Transfer(0, 2, 100, "Wire")], 3), 1)
  {
    FallbackThroughWorldBank();
    var modes := [["Wire"], ["Cash"], ["Wire"]];
    var last := State([0, 0, 0], [Transfer(1, 0, 100, "Cash"), Transfer(0, 2, 100, "Wire")], 3);
    assert ZeroCount([0, -100, 100]) == 1 by {
      assert [0, -100, 100][..2] == [0, -100] && [0, -100][..1] == [0] && [0][..0] == [];
    }
    assert Rounds(modes, last, Ceiling - 1) == Halt(last, 0);
  }

  /** Two rows for the same pair, 100 then 50: the matrix holds 50. */
  lemma DuplicateDebtRowOverwrites()
    ensures var banks := [Bank("World_Bank", ["Wire"]), Bank("A", ["Cash"]), Bank("B", ["Wire"])];
            var rows := [DebtRow(Some("A"), Some("B"), Some(100)), DebtRow(Some("A"), Some("B"), Some(50))];
            LastAmount(banks, rows, 1, 2) == 50
  {
  }

  /** A single bank is a configuration error. */
  lemma SingleBankRejected()
    ensures BuildBanks([BankRow(Some("World_Bank"), Some("Wire"))]) == Failure(TooFewBanks)
  {
  }

  /** A bank whose mode cell holds only separators and blanks is rejected. */
  lemma BlankModesRejected()
    ensures BuildBanks([BankRow(Some(" A "), Some(" , "))]) == Failure(NoModes("A"))
  {
    var row := BankRow(Some(" A "), Some(" , "));
    assert Text.Trim(" A ") == "A";
    assert Text.Split(" , ", ',') == [" ", " "];
    assert Text.Trim(" ") == "";
    assert |RowModes(row)| == 0;
  }
}
