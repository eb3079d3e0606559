/**
 The automaton object model of the Moore automaton simulator (ma.c).

 The simulator hands out `moore_t *` addresses and tags each object with a
 magic number that is overwritten when the object is deleted. Here every
 automaton lives in an arena, a sequence of immutable records addressed by
 handles (indices), and the magic number becomes the `live` flag. A deleted
 record stays in the arena with `live == false`, so a stale handle held by
 another automaton still names a record whose flag can be read, which is
 what the magic check stands for. A C NULL is `None`.

 Buffers are modelled at their declared bit widths (module Bits). The
 user-supplied transition and output functions are opaque function values;
 their results are read at the width of the buffer they write.
 */
module Moore {
  import opened Bits

  datatype Option<+T> = None | Some(value: T)

  /** The two `errno` values the simulator reports. */
  datatype Errno = EINVAL | ENOMEM

  /** The 0 / -1 return value of the `int` operations. */
  datatype Status = Ok | Fail(err: Errno)

  /** The result of an operation that hands back a value or fails. */
  datatype Result<+T> = Success(value: T) | Failure(err: Errno)

  /** Arena after an operation that mutates automata, and its status. A
      failing operation may still have changed the arena (ma_connect). */
  datatype Outcome = Outcome(arena: Arena, status: Status)

  type Handle = nat

  /** `t(next_state, input, state, n, s)`: next state from input and state. */
  type TransitionFn = (Bits, Bits, nat, nat) -> Bits

  /** `y(output, state, m, s)`: output from state. */
  type OutputFn = (Bits, nat, nat) -> Bits

  /** One incoming connection: source automaton and its output bit. */
  datatype Connection = Connection(source: Handle, index: nat)

  /** One automaton: widths, behaviour, buffers and both sides of its
      connections (`incoming` on the target side, `dependents`, the
      `connected_to_me` list, on the source side). */
  datatype Automaton = Automaton(
    n: nat, m: nat, s: nat,
    t: TransitionFn, y: OutputFn,
    live: bool,
    state: Bits, nextState: Bits, output: Bits,
    manualInput: Bits, finalInput: Bits,
    incoming: seq<Option<Connection>>,
    dependents: seq<Handle>)

  type Arena = seq<Automaton>

  /** `y` applied to a state, read at the output width `m`. */
  function OutputOf(r: Automaton, st: Bits): (o: Bits)
    ensures |o| == r.m
  {
    Fit(r.y(st, r.m, r.s), r.m)
  }

  /** `t` applied to an input and a state, read at the state width `s`. */
  function NextOf(r: Automaton, input: Bits, st: Bits): (o: Bits)
    ensures |o| == r.s
  {
    Fit(r.t(input, st, r.n, r.s), r.s)
  }

  /** The handle names a record that has not been deleted (magic check). */
  predicate Live(a: Arena, h: Handle)
  {
    h < |a| && a[h].live
  }

  predicate NoDup(hs: seq<Handle>)
  {
    forall i, j :: 0 <= i < j < |hs| ==> hs[i] != hs[j]
  }

  /** Buffers sized to their widths, widths as created, handles in range. */
  predicate WellFormed(size: nat, r: Automaton)
  {
    && r.m >= 1 && r.s >= 1
    && |r.state| == r.s && |r.nextState| == r.s && |r.output| == r.m
    && |r.manualInput| == r.n && |r.finalInput| == r.n && |r.incoming| == r.n
    && (forall j :: 0 <= j < |r.incoming| && r.incoming[j].Some? ==> r.incoming[j].value.source < size)
    && (forall y :: y in r.dependents ==> y < size)
  }

  predicate Valid(a: Arena)
  {
    forall h :: 0 <= h < |a| ==> WellFormed(|a|, a[h])
  }

  /** Every live automaton's output is `y` of its current state. */
  ghost predicate OutputInv(a: Arena)
  {
    forall h :: 0 <= h < |a| && a[h].live ==> a[h].output == OutputOf(a[h], a[h].state)
  }

  /** If live `tgt` reads input `j` from a live source, `tgt` is among that
      source's dependents. */
  predicate Registered(a: Arena, tgt: nat, j: nat)
  {
    tgt < |a| && j < |a[tgt].incoming| && a[tgt].live && a[tgt].incoming[j].Some?
    && Live(a, a[tgt].incoming[j].value.source)
    ==> tgt in a[a[tgt].incoming[j].value.source].dependents
  }

  /** The connection graph's mirrored-adjacency invariant. */
  ghost predicate GraphInv(a: Arena)
  {
    forall tgt: nat, j: nat :: Registered(a, tgt, j)
  }

  /** No dependents list holds the same automaton twice. */
  ghost predicate DepsDistinct(a: Arena)
  {
    forall h :: 0 <= h < |a| ==> NoDup(a[h].dependents)
  }

  /** All invariants the public operations maintain. */
  ghost predicate Good(a: Arena)
  {
    Valid(a) && OutputInv(a) && GraphInv(a) && DepsDistinct(a)
  }

  /** Two records agree on everything but their connection structure. */
  ghost predicate SameSignals(x: Automaton, y: Automaton)
  {
    && x.n == y.n && x.m == y.m && x.s == y.s && x.t == y.t && x.y == y.y
    && x.state == y.state && x.nextState == y.nextState && x.output == y.output
    && x.manualInput == y.manualInput && x.finalInput == y.finalInput
  }

  // ---------------------------------------------------------------------
  // identity_func
  // ---------------------------------------------------------------------

  /** identity_func at the bit level. With `m == s` the output is the state
      with everything past bit `s` cleared. Otherwise identity_func writes
      nothing; the output buffer is zeroed at creation and written only by
      the output function, so it stays all zero. */
  function Identity(st: Bits, m: nat, s: nat): Bits
  {
    if m == s && s > 0 then Fit(st, s) else Zeros(m)
  }

  /** On packed words, identity_func (copy, then clear bits past `s` in the
      last word) overwrites the whole output with the state when `m == s`,
      and otherwise leaves the output buffer exactly as it was. It agrees
      with the bit-level `Identity` whenever that untouched buffer still
      holds the zeros it was created with. */
  lemma IdentityWordsAgree(out: seq<Word>, st: seq<Word>, m: nat, s: nat)
    requires |out| == WordCount(m) && |st| == WordCount(s)
    ensures m == s ==> Unpack(IdentityWords(out, st, m, s), m) == Unpack(st, s)
    ensures m != s ==> Unpack(IdentityWords(out, st, m, s), m) == Unpack(out, m)
    ensures (m != s ==> Unpack(out, m) == Zeros(m)) ==>
              Unpack(IdentityWords(out, st, m, s), m) == Identity(Unpack(st, s), m, s)
  {
    var r := IdentityWords(out, st, m, s);
    if m == s && s > 0 {
      assert forall i :: 0 <= i < m ==> Unpack(r, m)[i] == Unpack(st, s)[i];
    }
  }

  // ---------------------------------------------------------------------
  // Creation
  // ---------------------------------------------------------------------

  /** The argument check of ma_create_full. */
  predicate CreateArgsOk(m: nat, s: nat, t: Option<TransitionFn>, y: Option<OutputFn>, q: Option<Bits>)
  {
    t.Some? && y.Some? && q.Some? && m > 0 && s > 0
  }

  /** A freshly created record: live, state `q`, output `y(q)`, zeroed
      input buffers, no incoming connections, no dependents. */
  ghost predicate IsFresh(x: Automaton, n: nat, m: nat, s: nat, t: TransitionFn, y: OutputFn, q: Bits)
  {
    && x.live && x.n == n && x.m == m && x.s == s && x.t == t && x.y == y
    && x.state == q && x.output == Fit(y(q, m, s), m)
    && x.manualInput == Zeros(n) && x.finalInput == Zeros(n)
    && |x.incoming| == n && (forall j :: 0 <= j < n ==> x.incoming[j].None?)
    && x.dependents == []
  }

  /** ma_create_full. Allocation never fails in the model. */
  function CreateFull(a: Arena, n: nat, m: nat, s: nat,
                      t: Option<TransitionFn>, y: Option<OutputFn>, q: Option<Bits>): (r: Result<(Arena, Handle)>)
    requires q.Some? ==> |q.value| == s
    ensures r.Failure? <==> !CreateArgsOk(m, s, t, y, q)
    ensures r.Failure? ==> r.err == EINVAL
    ensures r.Success? ==>
              var (a', h) := r.value;
              && h == |a| && |a'| == |a| + 1 && a'[..|a|] == a
              && IsFresh(a'[h], n, m, s, t.value, y.value, q.value)
    ensures r.Success? && Good(a) ==> Good(r.value.0)
  {
    if !CreateArgsOk(m, s, t, y, q) then Failure(EINVAL)
    else
      var x := Automaton(n, m, s, t.value, y.value, true,
                         q.value, Zeros(s), Fit(y.value(q.value, m, s), m),
                         Zeros(n), Zeros(n), seq(n, _ => None), []);
      var a' := a + [x];
      assert Good(a) ==> Good(a') by {
        if Good(a) {
          assert forall tgt: nat, j: nat :: Registered(a', tgt, j) by {
            forall tgt: nat, j: nat ensures Registered(a', tgt, j) {
              if tgt < |a| {
                assert Registered(a, tgt, j);
              }
            }
          }
        }
      }
      Success((a', |a|))
  }

  /** ma_create_simple: `n` inputs, `s` state bits, `s` outputs equal to
      the state, starting from the all-zero state. */
  function CreateSimple(a: Arena, n: nat, s: nat, t: Option<TransitionFn>): (r: Result<(Arena, Handle)>)
    ensures r.Failure? <==> (s == 0 || t.None?)
    ensures r.Failure? ==> r.err == EINVAL
    ensures r.Success? ==>
              var (a', h) := r.value;
              && h == |a| && |a'| == |a| + 1 && a'[..|a|] == a
              && IsFresh(a'[h], n, s, s, t.value, Identity, Zeros(s))
              && a'[h].output == Zeros(s)
    ensures r.Success? && Good(a) ==> Good(r.value.0)
  {
    if s == 0 || t.None? then Failure(EINVAL)
    else CreateFull(a, n, s, s, t, Some(Identity), Some(Zeros(s)))
  }

  /** Right after creation, the output read back is `y` of the initial
      state. */
  lemma CreateThenGetOutput(a: Arena, n: nat, m: nat, s: nat, t: TransitionFn, y: OutputFn, q: Bits)
    requires |q| == s && m > 0 && s > 0
    ensures CreateFull(a, n, m, s, Some(t), Some(y), Some(q)).Success?
    ensures var (a', h) := CreateFull(a, n, m, s, Some(t), Some(y), Some(q)).value;
            GetOutput(a', Some(h)) == Success(Fit(y(q, m, s), m))
  {
  }

  // ---------------------------------------------------------------------
  // Manual signal control
  // ---------------------------------------------------------------------

  /** ma_set_input: overwrite the manual-input buffer in full. */
  function SetInput(a: Arena, h: Option<Handle>, bits: Option<Bits>): (r: Outcome)
    requires h.Some? ==> Live(a, h.value)
    requires h.Some? && bits.Some? ==> |bits.value| == a[h.value].n
    ensures r.status.Ok? <==> h.Some? && bits.Some? && a[h.value].n > 0
    ensures r.status.Fail? ==> r.arena == a && r.status.err == EINVAL
    ensures r.status.Ok? ==>
              && |r.arena| == |a|
              && (forall x :: 0 <= x < |a| && x != h.value ==> r.arena[x] == a[x])
              && r.arena[h.value] == a[h.value].(manualInput := bits.value)
    ensures Good(a) ==> Good(r.arena)
  {
    if h.None? || bits.None? || a[h.value].n == 0 then Outcome(a, Fail(EINVAL))
    else
      var a' := a[h.value := a[h.value].(manualInput := bits.value)];
      assert Good(a) ==> Good(a') by {
        if Good(a) {
          assert forall tgt: nat, j: nat :: Registered(a', tgt, j) by {
            forall tgt: nat, j: nat ensures Registered(a', tgt, j) {
              assert Registered(a, tgt, j);
            }
          }
        }
      }
      Outcome(a', Ok)
  }

  /** ma_set_state: overwrite the state, then recompute the output. */
  function SetState(a: Arena, h: Option<Handle>, bits: Option<Bits>): (r: Outcome)
    requires h.Some? ==> Live(a, h.value)
    requires h.Some? && bits.Some? ==> |bits.value| == a[h.value].s
    ensures r.status.Ok? <==> h.Some? && bits.Some?
    ensures r.status.Fail? ==> r.arena == a && r.status.err == EINVAL
    ensures r.status.Ok? ==>
              && |r.arena| == |a|
              && (forall x :: 0 <= x < |a| && x != h.value ==> r.arena[x] == a[x])
              && r.arena[h.value].state == bits.value
              && r.arena[h.value].output == OutputOf(a[h.value], bits.value)
              && r.arena[h.value] == a[h.value].(state := r.arena[h.value].state, output := r.arena[h.value].output)
    ensures Good(a) ==> Good(r.arena)
  {
    if h.None? || bits.None? then Outcome(a, Fail(EINVAL))
    else
      var x := a[h.value];
      var a' := a[h.value := x.(state := bits.value, output := Fit(x.y(bits.value, x.m, x.s), x.m))];
      assert Good(a) ==> Good(a') by {
        if Good(a) {
          assert forall tgt: nat, j: nat :: Registered(a', tgt, j) by {
            forall tgt: nat, j: nat ensures Registered(a', tgt, j) {
              assert Registered(a, tgt, j);
            }
          }
        }
      }
      Outcome(a', Ok)
  }

  /** ma_get_output: the current output buffer, or EINVAL for a null handle. */
  function GetOutput(a: Arena, h: Option<Handle>): (r: Result<Bits>)
    requires h.Some? ==> Live(a, h.value)
    ensures r.Failure? <==> h.None?
    ensures r.Failure? ==> r.err == EINVAL
    ensures r.Success? && Valid(a) ==> |r.value| == a[h.value].m
    ensures r.Success? && OutputInv(a) ==> r.value == OutputOf(a[h.value], a[h.value].state)
  {
    if h.None? then Failure(EINVAL) else Success(a[h.value].output)
  }

  /** After ma_set_state the output read back is `y` of the state just set. */
  lemma SetStateThenGetOutput(a: Arena, h: Handle, bits: Bits)
    requires Live(a, h) && |bits| == a[h].s
    ensures GetOutput(SetState(a, Some(h), Some(bits)).arena, Some(h)) == Success(OutputOf(a[h], bits))
  {
  }
}
