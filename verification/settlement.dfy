/** The greedy settlement loop (mainwindow.cpp:225-259): repeatedly pick the
    most indebted bank and pay the richest creditor it shares a mode with,
    or route the whole debt through the intermediary at position 0. */
module Settlement {
  import opened Results
  import opened ModeSets
  import opened Balances
  import opened Selection

  /** One entry of the plan: bank `payer` pays `amount` to bank `payee`
      over payment mode `mode`. */
  datatype Transfer = Transfer(payer: nat, payee: nat, amount: int, mode: string)

  /** The bank every unmatched debt is routed through ("World_Bank"); the
      loop uses the position, not the name. */
  const Intermediary: nat := 0

  /** The SAFE bound on the number of rounds. */
  const Ceiling: nat := 1000

  function Abs(x: int): nat {
    if x < 0 then -x else x
  }

  function Min(x: int, y: int): int {
    if x <= y then x else y
  }

  /** Everything bank i pays in the plan. */
  function Outflow(plan: seq<Transfer>, i: nat): int {
    if |plan| == 0 then 0
    else Outflow(plan[..|plan| - 1], i) + (if plan[|plan| - 1].payer == i then plan[|plan| - 1].amount else 0)
  }

  /** Everything bank i receives in the plan. */
  function Inflow(plan: seq<Transfer>, i: nat): int {
    if |plan| == 0 then 0
    else Inflow(plan[..|plan| - 1], i) + (if plan[|plan| - 1].payee == i then plan[|plan| - 1].amount else 0)
  }

  lemma {:induction false} FlowAppend(plan: seq<Transfer>, t: Transfer, i: nat)
    ensures Outflow(plan + [t], i) == Outflow(plan, i) + (if t.payer == i then t.amount else 0)
    ensures Inflow(plan + [t], i) == Inflow(plan, i) + (if t.payee == i then t.amount else 0)
  {
  }

  /** Ledger conservation: every bank's balance is its initial balance plus
      what it has paid minus what it has received in the plan so far. */
  ghost predicate Ledger(initial: seq<int>, plan: seq<Transfer>, net: seq<int>) {
    |net| == |initial| && forall i :: 0 <= i < |net| ==> net[i] == initial[i] + Outflow(plan, i) - Inflow(plan, i)
  }

  /** A transfer's mode is one its payer or its payee accepts, and one both
      accept when neither end is the intermediary. */
  ghost predicate ModeAccepted(modes: seq<seq<string>>, t: Transfer)
    requires t.payer < |modes| && t.payee < |modes|
  {
    && (t.mode in modes[t.payer] || t.mode in modes[t.payee])
    && (t.payer != Intermediary && t.payee != Intermediary ==> t.mode in modes[t.payer] && t.mode in modes[t.payee])
  }

  /** The loop variables: balances `net`, the plan so far and `bal`, the
      number of banks the loop believes settled. */
  datatype State = State(net: seq<int>, plan: seq<Transfer>, settled: int)

  /** A round either lets the loop go on or breaks out of it. */
  datatype Outcome = Continue(next: State) | Stop(last: State) {
    function After(): State {
      if Continue? then next else last
    }
  }

  /** One round of the loop body after SAFE++. */
  function Step(modes: seq<seq<string>>, s: State): (o: Outcome)
    requires |modes| == |s.net| && ModeSetsValid(modes)
    ensures |o.After().net| == |s.net|
    ensures |s.plan| <= |o.After().plan| <= |s.plan| + 2 && o.After().plan[..|s.plan|] == s.plan
    ensures forall k :: |s.plan| <= k < |o.After().plan| ==>
              o.After().plan[k].payer < |s.net| && o.After().plan[k].payee < |s.net|
    ensures forall k :: |s.plan| <= k < |o.After().plan| ==> ModeAccepted(modes, o.After().plan[k])
    ensures o == Stop(s) <==> AllZero(s.net)
  {
    var deb := MinIndex(s.net);
    if deb < 0 then Stop(s)
    else
      var good := MaxIndex(s.net, modes, deb);
      var cred := good.0;
      if cred < 0 then
        var amt := Abs(s.net[deb]);
        var plan1 := s.plan + [Transfer(deb, Intermediary, amt, modes[deb][0])];
        var sm := SimpleMaxIndex(s.net);
        if sm < 0 then Stop(State(s.net, plan1, s.settled))
        else
          var plan2 := plan1 + [Transfer(Intermediary, sm, amt, modes[sm][0])];
          var net1 := s.net[sm := s.net[sm] + s.net[deb]];
          var net2 := net1[deb := 0];
          var settled := s.settled + (if net2[deb] == 0 then 1 else 0) + (if net2[sm] == 0 then 1 else 0);
          assert plan2[..|s.plan|] == s.plan;
          Continue(State(net2, plan2, settled))
      else
        var aa := Min(Abs(s.net[deb]), s.net[cred]);
        var plan1 := s.plan + [Transfer(deb, cred, aa, good.1)];
        var net1 := s.net[deb := s.net[deb] + aa];
        var net2 := net1[cred := net1[cred] - aa];
        var settled := s.settled + (if net2[deb] == 0 then 1 else 0) + (if net2[cred] == 0 then 1 else 0);
        Continue(State(net2, plan1, settled))
  }

  /** What the loop keeps true while the balances sum to zero. */
  ghost predicate Tracks(initial: seq<int>, s: State) {
    && Sum(s.net) == 0
    && s.settled == ZeroCount(s.net)
    && Ledger(initial, s.plan, s.net)
    && forall k :: 0 <= k < |s.plan| ==> s.plan[k].amount > 0
  }

  /** With balances summing to zero, the debtor picked is strictly negative
      and some bank is owed money. */
  lemma {:induction false} DebtorIsNegative(net: seq<int>)
    requires Sum(net) == 0 && !AllZero(net)
    ensures 0 <= MinIndex(net) < |net| && net[MinIndex(net)] < 0
    ensures 0 <= SimpleMaxIndex(net) < |net| && net[SimpleMaxIndex(net)] > 0
  {
    ZeroSumSigns(net);
  }

  /** A round in which the debtor shares a mode with some bank owed money:
      one transfer, debtor to the first richest such bank, of the smaller of
      the debt and the credit, over the least common mode; at least one of
      the two ends at zero. */
  lemma {:induction false} DirectRound(modes: seq<seq<string>>, s: State)
    requires |modes| == |s.net| && ModeSetsValid(modes)
    requires Sum(s.net) == 0 && !AllZero(s.net)
    requires exists j :: 0 <= j < |s.net| && Eligible(s.net, modes, MinIndex(s.net), j)
    ensures Step(modes, s).Continue?
    ensures var deb := MinIndex(s.net);
            var t := Step(modes, s).next;
            && |t.plan| == |s.plan| + 1
            && var p := t.plan[|s.plan|];
            && p.payer == deb && p.payee < |s.net|
            && Eligible(s.net, modes, deb, p.payee)
            && (forall j :: 0 <= j < |s.net| && Eligible(s.net, modes, deb, j) ==>
                  s.net[j] <= s.net[p.payee] && (j < p.payee ==> s.net[j] < s.net[p.payee]))
            && p.amount == Min(-s.net[deb], s.net[p.payee]) && p.amount > 0
            && IsLeastCommon(modes[deb], modes[p.payee], p.mode)
            && t.net == s.net[deb := s.net[deb] + p.amount][p.payee := s.net[p.payee] - p.amount]
            && (t.net[deb] == 0 || t.net[p.payee] == 0)
  {
    DebtorIsNegative(s.net);
  }

  /** A round in which no bank owed money shares a mode with the debtor: the
      full debt goes debtor to intermediary over the debtor's first mode, then
      intermediary to the first bank with the largest balance over that
      bank's first mode; the debtor ends at zero. */
  lemma {:induction false} FallbackRound(modes: seq<seq<string>>, s: State)
    requires |modes| == |s.net| && ModeSetsValid(modes)
    requires Sum(s.net) == 0 && !AllZero(s.net)
    requires forall j :: 0 <= j < |s.net| ==> !Eligible(s.net, modes, MinIndex(s.net), j)
    ensures Step(modes, s).Continue?
    ensures var deb := MinIndex(s.net);
            var t := Step(modes, s).next;
            && |t.plan| == |s.plan| + 2
            && var target := t.plan[|s.plan| + 1].payee;
            && target < |s.net| && s.net[target] > 0
            && (forall j :: 0 <= j < |s.net| ==> s.net[j] <= s.net[target] && (j < target ==> s.net[j] < s.net[target]))
            && t.plan[|s.plan|] == Transfer(deb, Intermediary, -s.net[deb], modes[deb][0])
            && t.plan[|s.plan| + 1] == Transfer(Intermediary, target, -s.net[deb], modes[target][0])
            && t.net == s.net[target := s.net[target] + s.net[deb]][deb := 0]
  {
    DebtorIsNegative(s.net);
  }

  /** Each round keeps the balances summing to zero, the settled count exact
      and the ledger balanced, emits one or two positive transfers and
      settles at least one more bank. */
  lemma RoundPreserves(modes: seq<seq<string>>, initial: seq<int>, s: State)
    requires |modes| == |s.net| && ModeSetsValid(modes)
    requires Tracks(initial, s) && !AllZero(s.net)
    ensures Step(modes, s).Continue?
    ensures var t := Step(modes, s).next;
            && Tracks(initial, t)
            && t.settled > s.settled
            && |s.plan| < |t.plan| <= |s.plan| + 2
  {
    DebtorIsNegative(s.net);
    var deb := MinIndex(s.net);
    if MaxIndex(s.net, modes, deb).0 < 0 {
      FallbackPreserves(modes, initial, s, deb, SimpleMaxIndex(s.net));
    } else {
      DirectPreserves(modes, initial, s, deb, MaxIndex(s.net, modes, deb));
    }
  }

  lemma {:induction false} FallbackPreserves(modes: seq<seq<string>>, initial: seq<int>, s: State, deb: nat, sm: nat)
    requires |modes| == |s.net| && ModeSetsValid(modes)
    requires Tracks(initial, s)
    requires deb == MinIndex(s.net) && deb < |s.net| && s.net[deb] < 0
    requires sm == SimpleMaxIndex(s.net) && sm < |s.net| && s.net[sm] > 0
    requires MaxIndex(s.net, modes, deb).0 < 0
    ensures Step(modes, s).Continue?
    ensures var t := Step(modes, s).next;
            Tracks(initial, t) && t.settled > s.settled && |t.plan| == |s.plan| + 2
  {
    FallbackTransferPreserves(initial, s, deb, sm, modes[deb][0], modes[sm][0], Step(modes, s).next);
  }

  /** The bookkeeping of routing a debt through the intermediary. */
  lemma {:induction false} FallbackTransferPreserves(initial: seq<int>, s: State, deb: nat, sm: nat, md: string, md2: string, t: State)
    requires Tracks(initial, s)
    requires deb < |s.net| && sm < |s.net| && s.net[deb] < 0 < s.net[sm]
    requires var amt := Abs(s.net[deb]);
             var net2 := s.net[sm := s.net[sm] + s.net[deb]][deb := 0];
             t == State(net2, s.plan + [Transfer(deb, Intermediary, amt, md)] + [Transfer(Intermediary, sm, amt, md2)],
                        s.settled + (if net2[deb] == 0 then 1 else 0) + (if net2[sm] == 0 then 1 else 0))
    ensures Tracks(initial, t) && t.settled > s.settled && |t.plan| == |s.plan| + 2
  {
    var amt := -s.net[deb];
    var net2 := s.net[sm := s.net[sm] + s.net[deb]][deb := 0];
    PairUpdate(s.net, sm, s.net[sm] + s.net[deb], deb, 0);
    FallbackLedger(initial, s.plan, s.net, deb, sm, md, md2);
    assert t.net == net2 && net2[deb] == 0;
    assert t.settled == ZeroCount(t.net);
    PositiveAfter(s.plan, [Transfer(deb, Intermediary, amt, md), Transfer(Intermediary, sm, amt, md2)]);
    assert s.plan + [Transfer(deb, Intermediary, amt, md)] + [Transfer(Intermediary, sm, amt, md2)]
        == s.plan + [Transfer(deb, Intermediary, amt, md), Transfer(Intermediary, sm, amt, md2)];
  }

  /** Routing the whole debt of `deb` through the intermediary to `sm` keeps
      the ledger balanced, whichever of the two is the intermediary itself. */
  lemma FallbackLedger(initial: seq<int>, plan: seq<Transfer>, net: seq<int>, deb: nat, sm: nat, md: string, md2: string)
    requires Ledger(initial, plan, net)
    requires deb < |net| && sm < |net| && deb != sm && net[deb] <= 0
    ensures var amt := Abs(net[deb]);
            Ledger(initial, plan + [Transfer(deb, Intermediary, amt, md)] + [Transfer(Intermediary, sm, amt, md2)],
                   net[sm := net[sm] + net[deb]][deb := 0])
  {
    var amt := Abs(net[deb]);
    var hop1 := Transfer(deb, Intermediary, amt, md);
    var hop2 := Transfer(Intermediary, sm, amt, md2);
    var net2 := net[sm := net[sm] + net[deb]][deb := 0];
    forall i | 0 <= i < |net2|
      ensures net2[i] == initial[i] + Outflow(plan + [hop1] + [hop2], i) - Inflow(plan + [hop1] + [hop2], i)
    {
      FlowAppend(plan, hop1, i);
      FlowAppend(plan + [hop1], hop2, i);
    }
  }

  /** A direct transfer of `aa` from `deb` to `cred` keeps the ledger balanced. */
  lemma DirectLedger(initial: seq<int>, plan: seq<Transfer>, net: seq<int>, deb: nat, cred: nat, aa: int, mode: string)
    requires Ledger(initial, plan, net)
    requires deb < |net| && cred < |net| && deb != cred
    ensures Ledger(initial, plan + [Transfer(deb, cred, aa, mode)], net[deb := net[deb] + aa][cred := net[cred] - aa])
  {
  }

  /** Appending positive transfers to a plan of positive transfers. */
  lemma PositiveAfter(plan: seq<Transfer>, hops: seq<Transfer>)
    requires forall k :: 0 <= k < |plan| ==> plan[k].amount > 0
    requires forall k :: 0 <= k < |hops| ==> hops[k].amount > 0
    ensures forall k :: 0 <= k < |plan + hops| ==> (plan + hops)[k].amount > 0
  {
  }

  lemma {:induction false} DirectPreserves(modes: seq<seq<string>>, initial: seq<int>, s: State, deb: nat, good: (int, string))
    requires |modes| == |s.net| && ModeSetsValid(modes)
    requires Tracks(initial, s)
    requires deb == MinIndex(s.net) && deb < |s.net| && s.net[deb] < 0
    requires good == MaxIndex(s.net, modes, deb) && good.0 >= 0
    ensures Step(modes, s).Continue?
    ensures var t := Step(modes, s).next;
            Tracks(initial, t) && t.settled > s.settled && |t.plan| == |s.plan| + 1
  {
    var cred := good.0;
    assert cred < |s.net| && s.net[cred] > 0;
    DirectTransferPreserves(initial, s, deb, cred, good.1, Step(modes, s).next);
  }

  /** The bookkeeping of a direct transfer from a debtor to a creditor. */
  lemma {:induction false} DirectTransferPreserves(initial: seq<int>, s: State, deb: nat, cred: nat, mode: string, t: State)
    requires Tracks(initial, s)
    requires deb < |s.net| && cred < |s.net| && s.net[deb] < 0 < s.net[cred]
    requires var aa := Min(Abs(s.net[deb]), s.net[cred]);
             var net2 := s.net[deb := s.net[deb] + aa][cred := s.net[cred] - aa];
             t == State(net2, s.plan + [Transfer(deb, cred, aa, mode)],
                        s.settled + (if net2[deb] == 0 then 1 else 0) + (if net2[cred] == 0 then 1 else 0))
    ensures Tracks(initial, t) && t.settled > s.settled && |t.plan| == |s.plan| + 1
  {
    var aa := Min(-s.net[deb], s.net[cred]);
    var net2 := s.net[deb := s.net[deb] + aa][cred := s.net[cred] - aa];
    PairUpdate(s.net, deb, s.net[deb] + aa, cred, s.net[cred] - aa);
    DirectLedger(initial, s.plan, s.net, deb, cred, aa, mode);
    assert t.net == net2 && (net2[deb] == 0 || net2[cred] == 0);
    assert t.settled == ZeroCount(t.net);
    PositiveAfter(s.plan, [Transfer(deb, cred, aa, mode)]);
  }

  /** The loop's starting state (mainwindow.cpp:225-229): the aggregated
      balances, an empty plan and `bal` counting the zero balances. */
  function Start(initial: seq<int>): State {
    State(initial, [], ZeroCount(initial))
  }

  /** Where the loop ends and how many rounds it ran. */
  datatype Halt = Halt(last: State, rounds: nat)

  /** The loop of mainwindow.cpp:231-259 as a function: while `bal` is not the
      number of banks and `fuel` rounds remain, run one round; a round that
      breaks out ends the loop with the state it left. */
  function Rounds(modes: seq<seq<string>>, s: State, fuel: nat): (h: Halt)
    requires |modes| == |s.net| && ModeSetsValid(modes)
    ensures |h.last.net| == |s.net| && h.rounds <= fuel
    ensures |s.plan| <= |h.last.plan| && h.last.plan[..|s.plan|] == s.plan
    ensures s.settled != |s.net| && fuel > 0 ==> h.rounds >= 1
    decreases fuel
  {
    if s.settled == |s.net| || fuel == 0 then Halt(s, 0)
    else match Step(modes, s)
      case Stop(last) => Halt(last, 1)
      case Continue(next) =>
        var h := Rounds(modes, next, fuel - 1);
        assert h.last.plan[..|s.plan|] == h.last.plan[..|next.plan|][..|s.plan|];
        Halt(h.last, h.rounds + 1)
  }

  /** Every transfer is between two banks and over a mode the payer or the
      payee accepts, one both accept unless an end is bank 0. */
  ghost predicate Accepted(modes: seq<seq<string>>, plan: seq<Transfer>) {
    forall k :: 0 <= k < |plan| ==>
      plan[k].payer < |modes| && plan[k].payee < |modes| && ModeAccepted(modes, plan[k])
  }

  /** Extending an accepted plan with accepted transfers. */
  lemma AcceptedExtend(modes: seq<seq<string>>, plan: seq<Transfer>, plan': seq<Transfer>)
    requires Accepted(modes, plan)
    requires |plan| <= |plan'| && plan'[..|plan|] == plan
    requires forall k :: |plan| <= k < |plan'| ==>
               plan'[k].payer < |modes| && plan'[k].payee < |modes| && ModeAccepted(modes, plan'[k])
    ensures Accepted(modes, plan')
  {
  }

  /** Every transfer the loop emits is accepted. */
  lemma {:induction false} RoundsAccepted(modes: seq<seq<string>>, s: State, fuel: nat)
    requires |modes| == |s.net| && ModeSetsValid(modes)
    requires Accepted(modes, s.plan)
    ensures Accepted(modes, Rounds(modes, s, fuel).last.plan)
    decreases fuel
  {
    if s.settled != |s.net| && fuel > 0 {
      var o := Step(modes, s);
      AcceptedExtend(modes, s.plan, o.After().plan);
      if o.Continue? {
        RoundsAccepted(modes, o.next, fuel - 1);
      }
    }
  }

  /** With balances summing to zero the loop keeps the ledger and `bal`
      exact, settles at least one more bank per round, emits one or two
      positive transfers per round, and settles every bank when the fuel
      covers the banks still unsettled. */
  lemma {:induction false} RoundsTrack(modes: seq<seq<string>>, initial: seq<int>, s: State, fuel: nat)
    requires |modes| == |s.net| && ModeSetsValid(modes)
    requires Tracks(initial, s)
    ensures var h := Rounds(modes, s, fuel);
            && Tracks(initial, h.last)
            && h.last.settled >= s.settled + h.rounds
            && |s.plan| + h.rounds <= |h.last.plan| <= |s.plan| + 2 * h.rounds
            && (|s.net| - s.settled <= fuel ==> AllZero(h.last.net))
    decreases fuel
  {
    AllZeroCount(s.net);
    if s.settled != |s.net| && fuel > 0 {
      RoundPreserves(modes, initial, s);
      var t := Step(modes, s).next;
      RoundsTrack(modes, initial, t, fuel - 1);
      var h' := Rounds(modes, t, fuel - 1);
      assert Rounds(modes, s, fuel) == Halt(h'.last, h'.rounds + 1);
    }
  }

  /** What the loop run from the starting state with the ceiling as fuel
      delivers: accepted transfers and, when the balances sum to zero, a
      balanced ledger of positive transfers, at most one round per bank not
      yet settled, an empty plan exactly when every balance is 0, and every
      bank settled when the ceiling allows it. */
  lemma LoopSpec(modes: seq<seq<string>>, initial: seq<int>)
    requires |modes| == |initial| && ModeSetsValid(modes)
    ensures var h := Rounds(modes, Start(initial), Ceiling);
            var plan, net := h.last.plan, h.last.net;
            && Accepted(modes, plan)
            && (Sum(initial) == 0 ==> Sum(net) == 0 && Ledger(initial, plan, net))
            && (Sum(initial) == 0 ==> forall k :: 0 <= k < |plan| ==> plan[k].amount > 0)
            && (Sum(initial) == 0 ==> h.rounds <= NonZeroCount(initial) && h.rounds <= |plan| <= 2 * h.rounds)
            && (Sum(initial) == 0 ==> (|plan| == 0 <==> AllZero(initial)))
            && (Sum(initial) == 0 && NonZeroCount(initial) <= Ceiling ==> AllZero(net))
  {
    var h := Rounds(modes, Start(initial), Ceiling);
    RoundsAccepted(modes, Start(initial), Ceiling);
    if Sum(initial) == 0 {
      RoundsTrack(modes, initial, Start(initial), Ceiling);
      AllZeroCount(initial);
      AllZeroCount(h.last.net);
    }
  }

  /** The whole loop: rounds run until `bal` reaches the number of banks, a
      round breaks out, or SAFE reaches the ceiling. Returns the plan, the
      final balances and the number of rounds run, which are those of
      `Rounds` from the starting state with the ceiling as fuel. */
  method Settle(modes: seq<seq<string>>, initial: seq<int>) returns (plan: seq<Transfer>, net: seq<int>, rounds: nat)
    requires |modes| == |initial| && ModeSetsValid(modes)
    ensures plan == Rounds(modes, Start(initial), Ceiling).last.plan
    ensures net == Rounds(modes, Start(initial), Ceiling).last.net
    ensures rounds == Rounds(modes, Start(initial), Ceiling).rounds
    ensures |net| == |initial| && rounds <= Ceiling
    ensures forall k :: 0 <= k < |plan| ==> plan[k].payer < |initial| && plan[k].payee < |initial|
    ensures forall k :: 0 <= k < |plan| ==> ModeAccepted(modes, plan[k])
    ensures Sum(initial) == 0 ==> Sum(net) == 0 && Ledger(initial, plan, net)
    ensures Sum(initial) == 0 ==> forall k :: 0 <= k < |plan| ==> plan[k].amount > 0
    ensures Sum(initial) == 0 ==> rounds <= NonZeroCount(initial) && rounds <= |plan| <= 2 * rounds
    ensures Sum(initial) == 0 ==> (|plan| == 0 <==> AllZero(initial))
    ensures Sum(initial) == 0 && NonZeroCount(initial) <= Ceiling ==> AllZero(net)
  {
    var n := |initial|;
    var s := Start(initial);
    var safe := 0;
    ghost var goal := Rounds(modes, Start(initial), Ceiling);
    while s.settled != n && safe < Ceiling
      invariant |s.net| == n && 0 <= safe <= Ceiling
      invariant goal == Halt(Rounds(modes, s, Ceiling - safe).last, safe + Rounds(modes, s, Ceiling - safe).rounds)
      decreases Ceiling - safe
    {
      safe := safe + 1;
      var o := Step(modes, s);
      if o.Stop? {
        s := o.last;
        break;
      }
      s := o.next;
    }
    plan, net, rounds := s.plan, s.net, safe;
    LoopSpec(modes, initial);
  }
}
