/**
 One synchronous step of a network of Moore automata (ma_step and
 update_final_input of ma.c).

 A step runs in three phases over the listed automata: every automaton
 first merges its connected inputs with its manual input into its final
 input, then every automaton computes its next state from that final input,
 and finally every automaton swaps its state buffers and recomputes its
 output. Because no output changes before the last phase, every automaton
 sees the outputs as they were before the step.
 */
module Step {
  import opened Bits
  import opened Moore
  import Graph

  // ---------------------------------------------------------------------
  // update_final_input
  // ---------------------------------------------------------------------

  /** Input `i` of `x` is driven: it is connected to a live automaton and
      names one of that automaton's outputs. */
  predicate Driven(a: Arena, x: Handle, i: nat)
    requires Valid(a) && x < |a| && i < a[x].n
  {
    match a[x].incoming[i]
    case Some(c) => Live(a, c.source) && c.index < a[c.source].m
    case None => false
  }

  /** The merge rule of update_final_input for one input bit: a driven
      input reads its source's current output, any other input (free, read
      from a deleted automaton, or naming an output past the source's width)
      reads the manual input. */
  predicate MergedBit(a: Arena, x: Handle, i: nat)
    requires Valid(a) && x < |a| && i < a[x].n
  {
    assert WellFormed(|a|, a[x]);
    match a[x].incoming[i]
    case Some(c) =>
      if Live(a, c.source) && c.index < a[c.source].m then
        assert WellFormed(|a|, a[c.source]);
        a[c.source].output[c.index]
      else a[x].manualInput[i]
    case None => a[x].manualInput[i]
  }

  /** The final input of `x`, bit by bit. */
  function FinalInput(a: Arena, x: Handle): (r: Bits)
    requires Valid(a) && x < |a|
    ensures |r| == a[x].n
  {
    seq(a[x].n, i requires 0 <= i < a[x].n => MergedBit(a, x, i))
  }

  /** The merge rule stated through `Driven`: driven bits come from the
      source's output, every other bit from the manual input. */
  lemma FinalInputBit(a: Arena, x: Handle, i: nat)
    requires Valid(a) && x < |a| && i < a[x].n
    ensures Driven(a, x, i) ==>
              var c := a[x].incoming[i].value;
              c.index < |a[c.source].output| && FinalInput(a, x)[i] == a[c.source].output[c.index]
    ensures !Driven(a, x, i) ==> FinalInput(a, x)[i] == a[x].manualInput[i]
  {
    assert WellFormed(|a|, a[x]);
    if Driven(a, x, i) {
      assert WellFormed(|a|, a[a[x].incoming[i].value.source]);
    }
  }

  /** update_final_input on packed words: zero the buffer, then set bit `i`
      at word `i / 64`, position `i % 64` whenever the merged bit is one. */
  method UpdateFinalInput(a: Arena, x: Handle) returns (ws: seq<Word>)
    requires Valid(a) && x < |a|
    ensures Packs(ws, FinalInput(a, x))
    ensures Unpack(ws, a[x].n) == FinalInput(a, x)
  {
    var n := a[x].n;
    if n == 0 {
      return [];
    }
    assert WellFormed(|a|, a[x]);
    ws := ZeroWords(WordCount(n));
    for i := 0 to n
      invariant |ws| == WordCount(n)
      invariant forall j: nat :: BitWord(j) < |ws| ==> TestBit(ws, j) == (j < i && FinalInput(a, x)[j])
    {
      BitIndexing(i, n);
      var value: bool;
      match a[x].incoming[i] {
        case Some(c) =>
          if Live(a, c.source) && c.index < a[c.source].m {
            assert WellFormed(|a|, a[c.source]);
            value := a[c.source].output[c.index];
          } else {
            value := a[x].manualInput[i];
          }
        case None =>
          value := a[x].manualInput[i];
      }
      assert value == FinalInput(a, x)[i];
      if value {
        ws := SetBit(ws, i);
      }
    }
    WordCountTight(n);
  }

  /** Arenas that agree on everything update_final_input reads. */
  ghost predicate ReadsAgree(a: Arena, b: Arena)
  {
    && |a| == |b|
    && forall y :: 0 <= y < |a| ==>
         && b[y].live == a[y].live && b[y].n == a[y].n && b[y].m == a[y].m
         && b[y].output == a[y].output && b[y].incoming == a[y].incoming
         && b[y].manualInput == a[y].manualInput
  }

  /** The final input depends on nothing but what `ReadsAgree` keeps. */
  lemma FinalInputFrame(a: Arena, b: Arena, x: Handle)
    requires Valid(a) && Valid(b) && x < |a| && ReadsAgree(a, b)
    ensures FinalInput(b, x) == FinalInput(a, x)
  {
    forall i | 0 <= i < a[x].n ensures FinalInput(b, x)[i] == FinalInput(a, x)[i] {
      FinalInputBit(a, x, i);
      FinalInputBit(b, x, i);
    }
  }

  // ---------------------------------------------------------------------
  // The three phases of ma_step, each a fold over the list prefix [0, k)
  // ---------------------------------------------------------------------

  /** Phase one: update_final_input for each listed automaton in order. */
  function Resolve(a: Arena, hs: seq<Handle>, k: nat): (r: Arena)
    requires Valid(a) && k <= |hs|
    requires forall i :: 0 <= i < |hs| ==> hs[i] < |a|
    ensures Valid(r) && |r| == |a|
    ensures forall x :: 0 <= x < |a| ==>
              r[x] == if x in hs[..k] then a[x].(finalInput := FinalInput(a, x)) else a[x]
  {
    if k == 0 then a
    else
      var b := Resolve(a, hs, k - 1);
      var x := hs[k - 1];
      assert ReadsAgree(a, b);
      FinalInputFrame(a, b, x);
      var r := b[x := b[x].(finalInput := FinalInput(b, x))];
      forall y | 0 <= y < |a|
        ensures r[y] == if y in hs[..k] then a[y].(finalInput := FinalInput(a, y)) else a[y]
      {
        assert hs[..k] == hs[..k - 1] + [x];
      }
      forall y | 0 <= y < |r| ensures WellFormed(|r|, r[y]) {
        assert WellFormed(|a|, a[y]);
      }
      r
  }

  /** Phase two: each listed automaton's next state from its final input. */
  function Evaluate(a: Arena, hs: seq<Handle>, k: nat): (r: Arena)
    requires k <= |hs|
    requires forall i :: 0 <= i < |hs| ==> hs[i] < |a|
    ensures |r| == |a|
    ensures forall x :: 0 <= x < |a| ==>
              r[x] == if x in hs[..k] then a[x].(nextState := NextOf(a[x], a[x].finalInput, a[x].state)) else a[x]
  {
    if k == 0 then a
    else
      var b := Evaluate(a, hs, k - 1);
      var x := hs[k - 1];
      assert hs[..k] == hs[..k - 1] + [x];
      b[x := b[x].(nextState := NextOf(b[x], b[x].finalInput, b[x].state))]
  }

  /** One automaton's phase-three update: swap the state buffers, then
      recompute the output from the new state. */
  function Swap(x: Automaton): (r: Automaton)
    ensures r.state == x.nextState && r.nextState == x.state
    ensures r.output == OutputOf(x, x.nextState)
  {
    x.(state := x.nextState, nextState := x.state, output := OutputOf(x, x.nextState))
  }

  /** An automaton after `count` phase-three updates: the buffers are
      swapped when `count` is odd and back in place when it is even, and
      any update leaves the output computed from the state it ends with. */
  function Settle(x: Automaton, count: nat): (r: Automaton)
  {
    if count == 0 then x
    else if count % 2 == 1 then Swap(x)
    else x.(output := OutputOf(x, x.state))
  }

  /** One more phase-three update flips the parity. */
  lemma SettleStep(x: Automaton, count: nat)
    ensures Swap(Settle(x, count)) == Settle(x, count + 1)
  {
    if count % 2 == 1 {
      assert Swap(Swap(x)) == x.(output := OutputOf(x, x.state));
    } else if count > 0 {
      assert Swap(x.(output := OutputOf(x, x.state))) == Swap(x);
    }
  }

  /** Phase three touches only the state buffers and the output, and once
      it has run the output is `y` of the state. */
  lemma SettleFrame(x: Automaton, count: nat)
    requires count > 0
    ensures var r := Settle(x, count);
            && r.live == x.live && r.incoming == x.incoming && r.dependents == x.dependents
            && r.y == x.y && r.m == x.m && r.s == x.s
            && r.output == OutputOf(r, r.state)
  {
  }

  /** A single phase-three update is one swap. */
  lemma SettleOnce(x: Automaton)
    ensures Settle(x, 1) == Swap(x)
  {
  }

  /** Extending a list prefix by one entry adds one to that entry's count. */
  lemma CountSnoc(hs: seq<Handle>, k: nat, y: Handle)
    requires 0 < k <= |hs|
    ensures multiset(hs[..k])[y] == multiset(hs[..k - 1])[y] + if y == hs[k - 1] then 1 else 0
  {
    assert hs[..k] == hs[..k - 1] + [hs[k - 1]];
  }

  /** Phase three over the list prefix [0, k): each listed automaton has
      been updated once per occurrence. */
  function Commit(a: Arena, hs: seq<Handle>, k: nat): (r: Arena)
    requires k <= |hs|
    requires forall i :: 0 <= i < |hs| ==> hs[i] < |a|
    ensures |r| == |a|
    ensures forall x :: 0 <= x < |a| ==> r[x] == Settle(a[x], multiset(hs[..k])[x])
  {
    if k == 0 then a
    else
      var b := Commit(a, hs, k - 1);
      var x := hs[k - 1];
      var r := b[x := Swap(b[x])];
      forall y | 0 <= y < |a| ensures r[y] == Settle(a[y], multiset(hs[..k])[y]) {
        CountSnoc(hs, k, y);
        if y == x {
          SettleStep(a[x], multiset(hs[..k - 1])[x]);
        }
      }
      r
  }

  // ---------------------------------------------------------------------
  // ma_step
  // ---------------------------------------------------------------------

  /** The handles before the first null entry of the list. */
  function LeadingHandles(at: seq<Option<Handle>>): (r: seq<Handle>)
    ensures |r| <= |at|
    ensures forall i :: 0 <= i < |r| ==> at[i] == Some(r[i])
    ensures |r| < |at| ==> at[|r|].None?
  {
    if |at| == 0 || at[0].None? then []
    else [at[0].value] + LeadingHandles(at[1..])
  }

  /** What ma_step demands of its list: every entry it dereferences names a
      live automaton. The entries past a null are never read. */
  predicate StepListOk(a: Arena, at: Option<seq<Option<Handle>>>)
  {
    at.Some? ==> forall h :: h in LeadingHandles(at.value) ==> Live(a, h)
  }

  /** A listed automaton's record after a successful step, from its record
      before the step: phase one's final input, phase two's next state, and
      the parity of the phase-three swaps. */
  function Stepped(a: Arena, x: Handle, count: nat): Automaton
    requires Valid(a) && x < |a|
  {
    var fi := FinalInput(a, x);
    Settle(a[x].(finalInput := fi, nextState := NextOf(a[x], fi, a[x].state)), count)
  }

  /** The three phases over a whole null-free list. */
  function Phases(a: Arena, hs: seq<Handle>): (r: Arena)
    requires Valid(a)
    requires forall i :: 0 <= i < |hs| ==> hs[i] < |a|
  {
    var a1 := Resolve(a, hs, |hs|);
    Commit(Evaluate(a1, hs, |hs|), hs, |hs|)
  }

  /** The effect of the three phases on one automaton. */
  lemma PhasesAt(a: Arena, hs: seq<Handle>, x: Handle)
    requires Valid(a) && x < |a|
    requires forall i :: 0 <= i < |hs| ==> hs[i] < |a|
    ensures |Phases(a, hs)| == |a|
    ensures Phases(a, hs)[x] == if x in hs then Stepped(a, x, multiset(hs)[x]) else a[x]
  {
    assert hs[..|hs|] == hs;
    assert x in hs <==> multiset(hs)[x] > 0;
    var a1 := Resolve(a, hs, |hs|);
    var a2 := Evaluate(a1, hs, |hs|);
    if x in hs {
      var fi := FinalInput(a, x);
      assert a2[x] == a[x].(finalInput := fi, nextState := NextOf(a[x], fi, a[x].state));
    }
  }

  /** The effect of the three phases on each automaton. */
  lemma PhasesEffect(a: Arena, hs: seq<Handle>)
    requires Valid(a)
    requires forall i :: 0 <= i < |hs| ==> hs[i] < |a|
    ensures Valid(Phases(a, hs)) && |Phases(a, hs)| == |a|
    ensures forall x :: 0 <= x < |a| ==>
              Phases(a, hs)[x] == if x in hs then Stepped(a, x, multiset(hs)[x]) else a[x]
  {
    var r := Phases(a, hs);
    forall x | 0 <= x < |a|
      ensures r[x] == if x in hs then Stepped(a, x, multiset(hs)[x]) else a[x]
    {
      PhasesAt(a, hs, x);
    }
    forall x | 0 <= x < |r| ensures WellFormed(|r|, r[x]) {
      PhasesAt(a, hs, x);
      assert WellFormed(|a|, a[x]);
      if x in hs {
        SteppedWellFormed(a, x, multiset(hs)[x]);
      }
    }
  }

  /** A stepped record keeps its buffers at their widths. */
  lemma SteppedWellFormed(a: Arena, x: Handle, count: nat)
    requires Valid(a) && x < |a|
    ensures WellFormed(|a|, Stepped(a, x, count))
  {
    assert WellFormed(|a|, a[x]);
  }

  /** ma_step. `None` is a NULL list. A null entry stops the first
      phase with EINVAL after the entries before it have had their final
      input updated. */
  function Step(a: Arena, at: Option<seq<Option<Handle>>>): (r: Outcome)
    requires Valid(a) && StepListOk(a, at)
    ensures Valid(r.arena) && |r.arena| == |a|
    ensures r.status.Ok? <==> at.Some? && |at.value| > 0 && forall i :: 0 <= i < |at.value| ==> at.value[i].Some?
    ensures r.status.Fail? ==> r.status.err == EINVAL
    ensures at.None? || |at.value| == 0 ==> r.arena == a
    ensures r.status.Fail? && at.Some? ==>
              var hs := LeadingHandles(at.value);
              forall x :: 0 <= x < |a| ==>
                r.arena[x] == if x in hs then a[x].(finalInput := FinalInput(a, x)) else a[x]
    ensures r.status.Ok? ==>
              var hs := LeadingHandles(at.value);
              forall x :: 0 <= x < |a| ==>
                r.arena[x] == if x in hs then Stepped(a, x, multiset(hs)[x]) else a[x]
  {
    if at.None? || |at.value| == 0 then Outcome(a, Fail(EINVAL))
    else
      var hs := LeadingHandles(at.value);
      assert forall i :: 0 <= i < |hs| ==> hs[i] < |a| by {
        forall i | 0 <= i < |hs| ensures hs[i] < |a| {
          assert hs[i] in hs;
        }
      }
      if |hs| < |at.value| then
        assert hs[..|hs|] == hs;
        Outcome(Resolve(a, hs, |hs|), Fail(EINVAL))
      else
        PhasesEffect(a, hs);
        Outcome(Phases(a, hs), Ok)
  }

  // ---------------------------------------------------------------------
  // Properties of a step
  // ---------------------------------------------------------------------

  /** A step touches only an automaton's signals, and leaves each output
      `y` of the state it ends with whenever that held before. */
  lemma StepFrame(a: Arena, at: Option<seq<Option<Handle>>>, x: Handle)
    requires Valid(a) && StepListOk(a, at) && x < |a|
    ensures var r := Step(a, at).arena;
            && r[x].live == a[x].live && r[x].incoming == a[x].incoming && r[x].dependents == a[x].dependents
            && r[x].y == a[x].y && r[x].m == a[x].m && r[x].s == a[x].s
            && (a[x].output == OutputOf(a[x], a[x].state) ==> r[x].output == OutputOf(r[x], r[x].state))
  {
    var o := Step(a, at);
    if o.status.Ok? {
      var hs: seq<Handle> := LeadingHandles(at.value);
      if x in hs {
        var fi := FinalInput(a, x);
        assert o.arena[x] == Settle(a[x].(finalInput := fi, nextState := NextOf(a[x], fi, a[x].state)), multiset(hs)[x]);
        SettleFrame(a[x].(finalInput := fi, nextState := NextOf(a[x], fi, a[x].state)), multiset(hs)[x]);
      }
    } else if at.Some? {
      var hs := LeadingHandles(at.value);
      if x in hs {
        assert o.arena[x] == a[x].(finalInput := FinalInput(a, x));
      }
    }
  }

  /** A step, successful or not, keeps every invariant; in particular every
      live automaton's output is `y` of its state afterwards. */
  lemma StepKeepsInvariants(a: Arena, at: Option<seq<Option<Handle>>>)
    requires Good(a) && StepListOk(a, at)
    ensures Good(Step(a, at).arena)
  {
    var r := Step(a, at).arena;
    forall x | 0 <= x < |r| && r[x].live ensures r[x].output == OutputOf(r[x], r[x].state) {
      StepFrame(a, at, x);
    }
    forall x: nat, j: nat ensures Registered(r, x, j) {
      assert Registered(a, x, j);
      if x < |r| {
        StepFrame(a, at, x);
        if j < |r[x].incoming| && r[x].incoming[j].Some? && r[x].incoming[j].value.source < |r| {
          StepFrame(a, at, r[x].incoming[j].value.source);
        }
      }
    }
    forall x | 0 <= x < |r| ensures NoDup(r[x].dependents) {
      StepFrame(a, at, x);
      assert NoDup(a[x].dependents);
    }
  }

  /** The C list holding exactly the handles `hs`, with no null entry. */
  function Listed(hs: seq<Handle>): (r: seq<Option<Handle>>)
    ensures |r| == |hs| && forall i :: 0 <= i < |r| ==> r[i].Some? && r[i].value == hs[i]
  {
    seq(|hs|, i requires 0 <= i < |hs| => Some(hs[i]))
  }

  /** Every null-free list is `Listed` of its handles, so the lemmas below
      that take `hs` cover every list a step accepts. */
  lemma ListedLeading(at: seq<Option<Handle>>)
    requires forall i :: 0 <= i < |at| ==> at[i].Some?
    ensures |LeadingHandles(at)| == |at| && Listed(LeadingHandles(at)) == at
  {
  }

  /** Reading the leading handles of a listed sequence gives them back. */
  lemma LeadingListed(hs: seq<Handle>)
    ensures LeadingHandles(Listed(hs)) == hs
  {
  }

  /** A step on a listed, non-empty sequence of live automata succeeds and
      updates each of them by the number of times it is listed. */
  lemma StepListed(a: Arena, hs: seq<Handle>)
    requires Valid(a) && 0 < |hs| && forall h :: h in hs ==> Live(a, h)
    ensures StepListOk(a, Some(Listed(hs)))
    ensures var r := Step(a, Some(Listed(hs)));
            && r.status.Ok?
            && forall x :: 0 <= x < |a| ==>
                 r.arena[x] == if x in hs then Stepped(a, x, multiset(hs)[x]) else a[x]
  {
    LeadingListed(hs);
  }

  /** With every automaton listed once, the step is the synchronous Moore
      update: the new state is `t` of the final input, formed from the
      outputs before the step, and the old state; the new output is `y` of
      the new state. */
  lemma StepSynchronous(a: Arena, hs: seq<Handle>, x: Handle)
    requires Valid(a) && forall h :: h in hs ==> Live(a, h)
    requires NoDup(hs) && x in hs
    ensures StepListOk(a, Some(Listed(hs)))
    ensures var r := Step(a, Some(Listed(hs)));
            && r.status.Ok?
            && r.arena[x].finalInput == FinalInput(a, x)
            && r.arena[x].state == NextOf(a[x], FinalInput(a, x), a[x].state)
            && r.arena[x].nextState == a[x].state
            && r.arena[x].output == OutputOf(a[x], r.arena[x].state)
  {
    StepListed(a, hs);
    Graph.NoDupCount(hs, x);
    var r := Step(a, Some(Listed(hs))).arena;
    var fi := FinalInput(a, x);
    var rec := a[x].(finalInput := fi, nextState := NextOf(a[x], fi, a[x].state));
    assert r[x] == Stepped(a, x, 1);
    assert Stepped(a, x, 1) == Settle(rec, 1);
    SettleOnce(rec);
  }

  /** An automaton listed twice is swapped twice: its state does not
      advance, although its next-state buffer and final input are updated. */
  lemma StepTwiceListedKeepsState(a: Arena, hs: seq<Handle>, x: Handle)
    requires Valid(a) && forall h :: h in hs ==> Live(a, h)
    requires multiset(hs)[x] == 2
    ensures StepListOk(a, Some(Listed(hs)))
    ensures x in hs
    ensures var r := Step(a, Some(Listed(hs)));
            && r.status.Ok?
            && r.arena[x].state == a[x].state
            && r.arena[x].nextState == NextOf(a[x], FinalInput(a, x), a[x].state)
            && r.arena[x].output == OutputOf(a[x], a[x].state)
  {
    assert x in hs;
    StepListed(a, hs);
  }

  /** The order of the list does not matter: two null-free lists holding
      the same automata the same number of times step alike. */
  lemma StepPermutation(a: Arena, hs1: seq<Handle>, hs2: seq<Handle>)
    requires Valid(a) && 0 < |hs1| && forall h :: h in hs1 ==> Live(a, h)
    requires multiset(hs1) == multiset(hs2)
    ensures StepListOk(a, Some(Listed(hs1))) && StepListOk(a, Some(Listed(hs2)))
    ensures Step(a, Some(Listed(hs1))) == Step(a, Some(Listed(hs2)))
  {
    assert forall h :: h in hs2 <==> h in hs1 by {
      forall h ensures h in hs2 <==> h in hs1 {
        assert h in hs1 <==> multiset(hs1)[h] > 0;
        assert h in hs2 <==> multiset(hs2)[h] > 0;
      }
    }
    assert |hs2| == |multiset(hs2)| == |multiset(hs1)| == |hs1|;
    StepListed(a, hs1);
    StepListed(a, hs2);
    var r1, r2 := Step(a, Some(Listed(hs1))).arena, Step(a, Some(Listed(hs2))).arena;
    assert r1 == r2;
  }

  /** A failing step changes no state, next state or output. */
  lemma StepFailureKeepsSignals(a: Arena, at: Option<seq<Option<Handle>>>)
    requires Valid(a) && StepListOk(a, at)
    requires Step(a, at).status.Fail?
    ensures forall x :: 0 <= x < |a| ==>
              var r := Step(a, at).arena;
              r[x] == a[x].(finalInput := r[x].finalInput)
  {
  }

  /** A manual input bit is seen by the next step exactly when the input is
      not driven by a live source: ma_set_input on a driven input has no
      effect on the final input. */
  lemma SetInputSeenIffFree(a: Arena, x: Handle, bits: Bits, i: nat)
    requires Valid(a) && Live(a, x) && |bits| == a[x].n && i < a[x].n
    ensures var b := SetInput(a, Some(x), Some(bits)).arena;
            && Valid(b)
            && FinalInput(b, x)[i] == if Driven(a, x, i) then FinalInput(a, x)[i] else bits[i]
  {
    var b := SetInput(a, Some(x), Some(bits)).arena;
    assert Valid(b) by {
      forall y | 0 <= y < |b| ensures WellFormed(|b|, b[y]) {
        assert WellFormed(|a|, a[y]);
      }
    }
    FinalInputBit(a, x, i);
    FinalInputBit(b, x, i);
  }

  /** Once the automaton an input reads from is deleted, the input falls
      back to the manual input. */
  lemma DeleteFallsBackToManual(a: Arena, h: Handle, x: Handle, i: nat)
    requires Valid(a) && GraphInv(a) && Live(a, h) && Live(a, x) && x != h
    requires i < a[x].n && a[x].incoming[i].Some? && a[x].incoming[i].value.source == h
    ensures var b := Graph.Delete(a, Some(h));
            Valid(b) && FinalInput(b, x)[i] == a[x].manualInput[i]
  {
    var b := Graph.Delete(a, Some(h));
    Graph.DeleteKeepsValid(a, h);
    assert Registered(a, x, i);
    FinalInputBit(b, x, i);
  }
}
