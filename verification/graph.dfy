/**
 The connection graph of the Moore automaton simulator (ma.c): connecting
 and disconnecting inputs, the source-side dependents list
 (`connected_to_me`), and deletion, which repairs both sides of every edge
 that touches the deleted automaton.
 */
module Graph {
  import opened Bits
  import opened Moore

  // ---------------------------------------------------------------------
  // The dependents list: append_to_connected_list and remove_connected
  // ---------------------------------------------------------------------

  /** `deps` with every occurrence of `x` removed, the rest in order. */
  function RemoveAll(deps: seq<Handle>, x: Handle): (r: seq<Handle>)
    ensures x !in r
    ensures |r| <= |deps|
    ensures forall y :: y in r <==> y in deps && y != x
    ensures x !in deps ==> r == deps
  {
    if |deps| == 0 then []
    else if deps[|deps| - 1] == x then RemoveAll(deps[..|deps| - 1], x)
    else RemoveAll(deps[..|deps| - 1], x) + [deps[|deps| - 1]]
  }

  /** Removal keeps the relative order of what stays: it distributes over
      concatenation. */
  lemma {:induction false} RemoveAllConcat(p: seq<Handle>, q: seq<Handle>, x: Handle)
    ensures RemoveAll(p + q, x) == RemoveAll(p, x) + RemoveAll(q, x)
    decreases |q|
  {
    if |q| == 0 {
      assert p + q == p;
    } else {
      var q' := q[..|q| - 1];
      assert (p + q)[..|p + q| - 1] == p + q';
      RemoveAllConcat(p, q', x);
    }
  }

  /** Every other entry keeps its multiplicity. */
  lemma {:induction false} RemoveAllCount(deps: seq<Handle>, x: Handle, y: Handle)
    ensures multiset(RemoveAll(deps, x))[y] == if y == x then 0 else multiset(deps)[y]
  {
    if |deps| > 0 {
      var d := deps[..|deps| - 1];
      assert deps == d + [deps[|deps| - 1]];
      RemoveAllCount(d, x, y);
    }
  }

  /** Every handle but the removed one keeps its multiplicity. */
  lemma RemoveAllCounts(deps: seq<Handle>, x: Handle)
    ensures forall y :: y != x ==> multiset(RemoveAll(deps, x))[y] == multiset(deps)[y]
  {
    forall y | y != x ensures multiset(RemoveAll(deps, x))[y] == multiset(deps)[y] {
      RemoveAllCount(deps, x, y);
    }
  }

  /** Removing twice is removing once. */
  lemma RemoveAllIdempotent(deps: seq<Handle>, x: Handle)
    ensures RemoveAll(RemoveAll(deps, x), x) == RemoveAll(deps, x)
  {
  }

  /** A duplicate-free list stays duplicate-free. */
  lemma {:induction false} RemoveAllNoDup(deps: seq<Handle>, x: Handle)
    requires NoDup(deps)
    ensures NoDup(RemoveAll(deps, x))
  {
    if |deps| > 0 {
      var d := deps[..|deps| - 1];
      assert NoDup(d);
      RemoveAllNoDup(d, x);
      assert deps[|deps| - 1] !in d;
    }
  }

  /** Removing from a list extended by one entry: the entry survives
      unless it is the removed handle. */
  lemma RemoveAllSnoc(p: seq<Handle>, d: Handle, x: Handle)
    ensures RemoveAll(p + [d], x) == RemoveAll(p, x) + (if d == x then [] else [d])
  {
    assert (p + [d])[..|p|] == p;
  }

  /** The state of remove_connected after reading `i` entries: the first
      `j` slots hold the kept entries so far, and the unread entries are
      still in place. */
  predicate Compacted(deps: seq<Handle>, x: Handle, buf: seq<Handle>, i: nat, j: nat)
  {
    && j <= i <= |deps| == |buf|
    && buf[..j] == RemoveAll(deps[..i], x)
    && forall k :: i <= k < |deps| ==> buf[k] == deps[k]
  }

  /** One step of the compaction: the entry at the read index is written
      at the write index, or skipped when it is the removed handle. */
  lemma CompactStep(deps: seq<Handle>, x: Handle, buf: seq<Handle>, i: nat, j: nat)
    requires Compacted(deps, x, buf, i, j) && i < |deps|
    ensures buf[i] != x ==> Compacted(deps, x, buf[j := buf[i]], i + 1, j + 1)
    ensures buf[i] == x ==> Compacted(deps, x, buf, i + 1, j)
  {
    var d := deps[i];
    assert buf[i] == d;
    assert deps[..i + 1] == deps[..i] + [d];
    RemoveAllSnoc(deps[..i], d, x);
    if d != x {
      assert buf[j := d][..j + 1] == buf[..j] + [d];
    }
  }

  /** remove_connected: the in-place compaction of the dependents array
      with a read index `i` and a write index `j`. */
  method RemoveConnected(deps: seq<Handle>, x: Handle) returns (r: seq<Handle>)
    ensures r == RemoveAll(deps, x)
    ensures x !in r && |r| <= |deps|
    ensures forall y :: y != x ==> multiset(r)[y] == multiset(deps)[y]
  {
    var buf := deps;
    var j := 0;
    var i := 0;
    while i < |deps|
      invariant Compacted(deps, x, buf, i, j)
    {
      CompactStep(deps, x, buf, i, j);
      if buf[i] != x {
        buf := buf[j := buf[i]];
        j := j + 1;
      }
      i := i + 1;
    }
    r := buf[..j];
    assert r == RemoveAll(deps, x) by {
      assert deps[..i] == deps;
    }
    RemoveAllCounts(deps, x);
  }

  /** append_to_connected_list: `x` is appended unless already present;
      `None` is the failure of growing the array (ENOMEM), which can only
      happen when `x` is not yet listed. */
  function AppendDependent(deps: seq<Handle>, x: Handle, growFails: bool): (r: Option<seq<Handle>>)
    ensures r.None? <==> x !in deps && growFails
    ensures r.Some? ==> x in r.value && |r.value| >= |deps| && r.value[..|deps|] == deps
    ensures r.Some? ==> |r.value| == if x in deps then |deps| else |deps| + 1
    ensures r.Some? ==> forall y :: y in r.value <==> y in deps || y == x
    ensures r.Some? ==> multiset(r.value)[x] == if x in deps then multiset(deps)[x] else 1
    ensures r.Some? && NoDup(deps) ==> NoDup(r.value)
  {
    if x in deps then Some(deps)
    else if growFails then None
    else
      var r := deps + [x];
      assert r[..|deps|] == deps;
      assert multiset(r)[x] == multiset(deps)[x] + 1;
      Some(r)
  }

  /** The duplicate scan of append_to_connected_list. */
  method AppendToConnectedList(deps: seq<Handle>, x: Handle, growFails: bool) returns (r: seq<Handle>, ok: bool)
    ensures ok <==> AppendDependent(deps, x, growFails).Some?
    ensures ok ==> r == AppendDependent(deps, x, growFails).value
    ensures !ok ==> r == deps
  {
    var i := 0;
    while i < |deps|
      invariant 0 <= i <= |deps|
      invariant x !in deps[..i]
    {
      if deps[i] == x {
        return deps, true;
      }
      i := i + 1;
    }
    assert deps[..i] == deps;
    if growFails {
      return deps, false;
    }
    return deps + [x], true;
  }

  // ---------------------------------------------------------------------
  // Arena updates shared by connect, disconnect and delete
  // ---------------------------------------------------------------------

  /** The arena with `h`'s input slots replaced. */
  function SetIncoming(a: Arena, h: Handle, slots: seq<Option<Connection>>): (r: Arena)
    requires h < |a|
    ensures |r| == |a| && r[h] == a[h].(incoming := slots)
    ensures forall x :: 0 <= x < |a| && x != h ==> r[x] == a[x]
  {
    a[h := a[h].(incoming := slots)]
  }

  /** The arena with `h`'s dependents list replaced. */
  function SetDependents(a: Arena, h: Handle, deps: seq<Handle>): (r: Arena)
    requires h < |a|
    ensures |r| == |a| && r[h] == a[h].(dependents := deps)
    ensures forall x :: 0 <= x < |a| && x != h ==> r[x] == a[x]
  {
    a[h := a[h].(dependents := deps)]
  }

  /** `tgt` dropped from `src`'s dependents (remove_connected on the arena). */
  function Unregister(a: Arena, tgt: Handle, src: Handle): (r: Arena)
    requires src < |a|
    ensures |r| == |a|
    ensures tgt !in r[src].dependents
    ensures forall x :: 0 <= x < |a| ==>
              r[x] == if x == src then a[x].(dependents := RemoveAll(a[x].dependents, tgt)) else a[x]
  {
    SetDependents(a, src, RemoveAll(a[src].dependents, tgt))
  }

  /** Two arenas that differ at most in their connection structure. */
  ghost predicate SignalsKept(a: Arena, b: Arena)
  {
    |a| == |b| && forall x :: 0 <= x < |a| ==> SameSignals(b[x], a[x]) && b[x].live == a[x].live
  }

  /** Two rewirings in a row still keep every signal. */
  lemma SignalsKeptTrans(a: Arena, b: Arena, c: Arena)
    requires SignalsKept(a, b) && SignalsKept(b, c)
    ensures SignalsKept(a, c)
  {
    forall x | 0 <= x < |a| ensures SameSignals(c[x], a[x]) && c[x].live == a[x].live {
      assert SameSignals(b[x], a[x]) && SameSignals(c[x], b[x]);
    }
  }

  /** Rewiring never disturbs the output invariant. */
  lemma SignalsKeptOutputInv(a: Arena, b: Arena)
    requires SignalsKept(a, b) && OutputInv(a)
    ensures OutputInv(b)
  {
    forall x | 0 <= x < |b| && b[x].live ensures b[x].output == OutputOf(b[x], b[x].state) {
      assert SameSignals(b[x], a[x]);
    }
  }

  /** Replacing one automaton's slots by in-range ones keeps the arena valid. */
  lemma SetIncomingValid(a: Arena, h: Handle, slots: seq<Option<Connection>>)
    requires Valid(a) && h < |a| && |slots| == a[h].n
    requires forall j :: 0 <= j < |slots| && slots[j].Some? ==> slots[j].value.source < |a|
    ensures Valid(SetIncoming(a, h, slots))
    ensures DepsDistinct(a) ==> DepsDistinct(SetIncoming(a, h, slots))
    ensures SignalsKept(a, SetIncoming(a, h, slots))
  {
    var r := SetIncoming(a, h, slots);
    forall x | 0 <= x < |r| ensures WellFormed(|r|, r[x]) {
      assert WellFormed(|a|, a[x]);
    }
  }

  /** Replacing one dependents list by an in-range one keeps the arena valid. */
  lemma SetDependentsValid(a: Arena, h: Handle, deps: seq<Handle>)
    requires Valid(a) && h < |a|
    requires forall y :: y in deps ==> y < |a|
    ensures Valid(SetDependents(a, h, deps))
    ensures DepsDistinct(a) && NoDup(deps) ==> DepsDistinct(SetDependents(a, h, deps))
    ensures SignalsKept(a, SetDependents(a, h, deps))
  {
    var r := SetDependents(a, h, deps);
    forall x | 0 <= x < |r| ensures WellFormed(|r|, r[x]) {
      assert WellFormed(|a|, a[x]);
    }
  }

  /** The argument checks of ma_connect. */
  predicate ConnectArgsOk(a: Arena, tgt: Option<Handle>, first: nat, src: Option<Handle>, srcFirst: nat, num: nat)
    requires tgt.Some? ==> tgt.value < |a|
    requires src.Some? ==> src.value < |a|
  {
    && tgt.Some? && src.Some? && num > 0
    && !(first >= a[tgt.value].n || srcFirst >= a[src.value].m
         || num > a[tgt.value].n - first || num > a[src.value].m - srcFirst)
  }

  /** Slots `[first, first + num)` rewired to outputs `[srcFirst, srcFirst + num)` of `src`. */
  function Wire(slots: seq<Option<Connection>>, first: nat, src: Handle, srcFirst: nat, num: nat): (r: seq<Option<Connection>>)
    ensures |r| == |slots|
    ensures forall j :: 0 <= j < |slots| && !(first <= j < first + num) ==> r[j] == slots[j]
    ensures forall j :: first <= j < first + num && j < |slots| ==> r[j] == Some(Connection(src, srcFirst + (j - first)))
  {
    seq(|slots|, j requires 0 <= j < |slots| =>
      if first <= j < first + num then Some(Connection(src, srcFirst + (j - first))) else slots[j])
  }

  /** A duplicate-free list holds each of its members exactly once. */
  lemma {:induction false} NoDupCount(hs: seq<Handle>, x: Handle)
    requires NoDup(hs) && x in hs
    ensures multiset(hs)[x] == 1
  {
    var d := hs[..|hs| - 1];
    assert hs == d + [hs[|hs| - 1]];
    assert NoDup(d);
    if hs[|hs| - 1] == x {
      assert x !in d;
    } else {
      NoDupCount(d, x);
    }
  }

  /** ma_connect. `growFails` stands for the allocation failure of the
      dependents array; the slots are already rewritten when it happens. */
  function Connect(a: Arena, tgt: Option<Handle>, first: nat, src: Option<Handle>, srcFirst: nat, num: nat,
                   growFails: bool): (r: Outcome)
    requires Valid(a)
    requires tgt.Some? ==> Live(a, tgt.value)
    requires src.Some? ==> Live(a, src.value)
    ensures !ConnectArgsOk(a, tgt, first, src, srcFirst, num) ==> r == Outcome(a, Fail(EINVAL))
    ensures ConnectArgsOk(a, tgt, first, src, srcFirst, num) ==>
              && (r.status.Ok? <==> tgt.value in a[src.value].dependents || !growFails)
              && (r.status.Fail? ==> r.status.err == ENOMEM)
              && |r.arena| == |a|
              && r.arena[tgt.value] == a[tgt.value].(incoming := Wire(a[tgt.value].incoming, first, src.value, srcFirst, num),
                                                     dependents := r.arena[tgt.value].dependents)
              && (src.value != tgt.value ==> r.arena[src.value] == a[src.value].(dependents := r.arena[src.value].dependents))
              && (src.value != tgt.value ==> r.arena[tgt.value].dependents == a[tgt.value].dependents)
              && (forall x :: 0 <= x < |a| && x != tgt.value && x != src.value ==> r.arena[x] == a[x])
              && r.arena[src.value].dependents ==
                   if r.status.Ok? then AppendDependent(a[src.value].dependents, tgt.value, growFails).value
                   else a[src.value].dependents
  {
    if !ConnectArgsOk(a, tgt, first, src, srcFirst, num) then Outcome(a, Fail(EINVAL))
    else
      var (t, s) := (tgt.value, src.value);
      var a1 := SetIncoming(a, t, Wire(a[t].incoming, first, s, srcFirst, num));
      match AppendDependent(a1[s].dependents, t, growFails)
      case None => Outcome(a1, Fail(ENOMEM))
      case Some(deps) => Outcome(SetDependents(a1, s, deps), Ok)
  }

  /** ma_connect with valid arguments, as two arena updates. */
  lemma ConnectUnfold(a: Arena, tgt: Handle, first: nat, src: Handle, srcFirst: nat, num: nat, growFails: bool)
    requires Valid(a) && Live(a, tgt) && Live(a, src)
    requires ConnectArgsOk(a, Some(tgt), first, Some(src), srcFirst, num)
    ensures var a1 := SetIncoming(a, tgt, Wire(a[tgt].incoming, first, src, srcFirst, num));
            var o := Connect(a, Some(tgt), first, Some(src), srcFirst, num, growFails);
            && Valid(a1) && SignalsKept(a, a1)
            && (DepsDistinct(a) ==> DepsDistinct(a1))
            && a1[src].dependents == a[src].dependents
            && o.arena == if o.status.Ok? then SetDependents(a1, src, AppendDependent(a[src].dependents, tgt, growFails).value)
                          else a1
  {
    var w := Wire(a[tgt].incoming, first, src, srcFirst, num);
    assert WellFormed(|a|, a[tgt]);
    SetIncomingValid(a, tgt, w);
  }

  /** Whatever its outcome, ma_connect leaves the arena valid and changes
      no signal. */
  lemma ConnectKeepsValid(a: Arena, tgt: Handle, first: nat, src: Handle, srcFirst: nat, num: nat, growFails: bool)
    requires Valid(a) && Live(a, tgt) && Live(a, src)
    ensures var r := Connect(a, Some(tgt), first, Some(src), srcFirst, num, growFails).arena;
            Valid(r) && SignalsKept(a, r) && (OutputInv(a) ==> OutputInv(r))
  {
    var r := Connect(a, Some(tgt), first, Some(src), srcFirst, num, growFails).arena;
    if ConnectArgsOk(a, Some(tgt), first, Some(src), srcFirst, num) {
      ConnectUnfold(a, tgt, first, src, srcFirst, num, growFails);
      var a1 := SetIncoming(a, tgt, Wire(a[tgt].incoming, first, src, srcFirst, num));
      if r != a1 {
        var deps := AppendDependent(a[src].dependents, tgt, growFails).value;
        assert WellFormed(|a|, a[src]);
        SetDependentsValid(a1, src, deps);
        SignalsKeptTrans(a, a1, r);
      }
    }
    if OutputInv(a) {
      SignalsKeptOutputInv(a, r);
    }
  }

  /** A successful ma_connect keeps the mirrored adjacency. */
  lemma ConnectKeepsGraph(a: Arena, tgt: Handle, first: nat, src: Handle, srcFirst: nat, num: nat, growFails: bool)
    requires Valid(a) && GraphInv(a) && Live(a, tgt) && Live(a, src)
    requires Connect(a, Some(tgt), first, Some(src), srcFirst, num, growFails).status.Ok?
    ensures GraphInv(Connect(a, Some(tgt), first, Some(src), srcFirst, num, growFails).arena)
  {
    var r := Connect(a, Some(tgt), first, Some(src), srcFirst, num, growFails).arena;
    forall x: nat, j: nat ensures Registered(r, x, j) {
      ConnectRegisteredAt(a, tgt, first, src, srcFirst, num, growFails, x, j);
    }
  }

  /** One slot of the arena after a successful ma_connect is registered:
      a rewired slot by the append, any other slot as it was before. */
  lemma ConnectRegisteredAt(a: Arena, tgt: Handle, first: nat, src: Handle, srcFirst: nat, num: nat, growFails: bool,
                            x: nat, j: nat)
    requires Valid(a) && GraphInv(a) && Live(a, tgt) && Live(a, src)
    requires Connect(a, Some(tgt), first, Some(src), srcFirst, num, growFails).status.Ok?
    ensures Registered(Connect(a, Some(tgt), first, Some(src), srcFirst, num, growFails).arena, x, j)
  {
    var r := Connect(a, Some(tgt), first, Some(src), srcFirst, num, growFails).arena;
    if x < |r| && j < |r[x].incoming| && r[x].live && r[x].incoming[j].Some? {
      var c := r[x].incoming[j].value.source;
      if x == tgt && first <= j < first + num {
        assert c == src && tgt in r[src].dependents;
      } else {
        assert r[x].incoming[j] == a[x].incoming[j];
        assert Registered(a, x, j);
        if Live(r, c) {
          assert x in a[c].dependents;
          assert c == src || r[c].dependents == a[c].dependents;
        }
      }
    }
  }

  /** A successful ma_connect keeps every invariant. */
  lemma ConnectKeepsInvariants(a: Arena, tgt: Handle, first: nat, src: Handle, srcFirst: nat, num: nat, growFails: bool)
    requires Good(a) && Live(a, tgt) && Live(a, src)
    requires Connect(a, Some(tgt), first, Some(src), srcFirst, num, growFails).status.Ok?
    ensures Good(Connect(a, Some(tgt), first, Some(src), srcFirst, num, growFails).arena)
  {
    ConnectUnfold(a, tgt, first, src, srcFirst, num, growFails);
    ConnectKeepsValid(a, tgt, first, src, srcFirst, num, growFails);
    ConnectKeepsGraph(a, tgt, first, src, srcFirst, num, growFails);
    var a1 := SetIncoming(a, tgt, Wire(a[tgt].incoming, first, src, srcFirst, num));
    var deps := AppendDependent(a[src].dependents, tgt, growFails).value;
    assert WellFormed(|a|, a[src]);
    SetDependentsValid(a1, src, deps);
  }

  /** A failing ma_connect whose dependents array could not grow keeps the
      rewritten slots without registering the target. */
  lemma ConnectFailureUnregistered(a: Arena, tgt: Handle, first: nat, src: Handle, srcFirst: nat, num: nat)
    requires Valid(a) && Live(a, tgt) && Live(a, src) && tgt != src
    requires ConnectArgsOk(a, Some(tgt), first, Some(src), srcFirst, num)
    requires tgt !in a[src].dependents
    ensures var r := Connect(a, Some(tgt), first, Some(src), srcFirst, num, true);
            && r.status == Fail(ENOMEM)
            && r.arena[tgt].incoming[first] == Some(Connection(src, srcFirst))
            && !Registered(r.arena, tgt, first)
  {
  }

  /** After a successful ma_connect the source lists the target exactly once. */
  lemma ConnectRegistersOnce(a: Arena, tgt: Handle, first: nat, src: Handle, srcFirst: nat, num: nat, growFails: bool)
    requires Good(a) && Live(a, tgt) && Live(a, src)
    requires Connect(a, Some(tgt), first, Some(src), srcFirst, num, growFails).status.Ok?
    ensures multiset(Connect(a, Some(tgt), first, Some(src), srcFirst, num, growFails).arena[src].dependents)[tgt] == 1
  {
    var deps := Connect(a, Some(tgt), first, Some(src), srcFirst, num, growFails).arena[src].dependents;
    assert NoDup(a[src].dependents);
    NoDupCount(deps, tgt);
  }

  /** Wiring a span a second time changes nothing. */
  lemma WireTwice(slots: seq<Option<Connection>>, first: nat, src: Handle, srcFirst: nat, num: nat)
    ensures var w := Wire(slots, first, src, srcFirst, num);
            Wire(w, first, src, srcFirst, num) == w
  {
  }

  /** ma_connect on a span already wired to the source, with the target
      already listed by the source, succeeds and changes nothing. */
  lemma ConnectWiredNoop(r: Arena, tgt: Handle, first: nat, src: Handle, srcFirst: nat, num: nat, growFails: bool)
    requires Valid(r) && Live(r, tgt) && Live(r, src)
    requires ConnectArgsOk(r, Some(tgt), first, Some(src), srcFirst, num)
    requires Wire(r[tgt].incoming, first, src, srcFirst, num) == r[tgt].incoming
    requires tgt in r[src].dependents
    ensures Connect(r, Some(tgt), first, Some(src), srcFirst, num, growFails) == Outcome(r, Ok)
  {
    ConnectUnfold(r, tgt, first, src, srcFirst, num, growFails);
    assert SetIncoming(r, tgt, r[tgt].incoming) == r;
    assert SetDependents(r, src, r[src].dependents) == r;
  }

  /** Connecting the same span twice is the same as connecting it once:
      no duplicate dependents entry, no other effect. */
  lemma ReconnectIdempotent(a: Arena, tgt: Handle, first: nat, src: Handle, srcFirst: nat, num: nat, growFails: bool)
    requires Valid(a) && Live(a, tgt) && Live(a, src)
    requires Connect(a, Some(tgt), first, Some(src), srcFirst, num, growFails).status.Ok?
    ensures var r := Connect(a, Some(tgt), first, Some(src), srcFirst, num, growFails).arena;
            && Valid(r) && Live(r, tgt) && Live(r, src)
            && Connect(r, Some(tgt), first, Some(src), srcFirst, num, growFails) == Outcome(r, Ok)
  {
    ConnectKeepsValid(a, tgt, first, src, srcFirst, num, growFails);
    var r := Connect(a, Some(tgt), first, Some(src), srcFirst, num, growFails).arena;
    assert SameSignals(r[tgt], a[tgt]) && SameSignals(r[src], a[src]);
    WireTwice(a[tgt].incoming, first, src, srcFirst, num);
    ConnectWiredNoop(r, tgt, first, src, srcFirst, num, growFails);
  }

  // ---------------------------------------------------------------------
  // is_connected_to
  // ---------------------------------------------------------------------

  /** is_connected_to: the source of the first connected input, if any. */
  method IsConnectedTo(x: Automaton) returns (r: Option<Handle>)
    ensures r.None? <==> forall j :: 0 <= j < |x.incoming| ==> x.incoming[j].None?
    ensures r.Some? ==> exists j :: && 0 <= j < |x.incoming| && x.incoming[j].Some?
                                    && x.incoming[j].value.source == r.value
                                    && forall k :: 0 <= k < j ==> x.incoming[k].None?
  {
    var i := 0;
    while i < |x.incoming|
      invariant 0 <= i <= |x.incoming|
      invariant forall k :: 0 <= k < i ==> x.incoming[k].None?
    {
      if x.incoming[i].Some? {
        return Some(x.incoming[i].value.source);
      }
      i := i + 1;
    }
    return None;
  }

  // ---------------------------------------------------------------------
  // ma_disconnect
  // ---------------------------------------------------------------------

  /** Some slot of `slots` reads from `src`. */
  predicate PointsTo(slots: seq<Option<Connection>>, src: Handle)
  {
    exists j :: 0 <= j < |slots| && slots[j].Some? && slots[j].value.source == src
  }

  /** Some slot in `[first, first + num)` reads from `src`. */
  predicate PointsToIn(slots: seq<Option<Connection>>, first: nat, num: nat, src: Handle)
  {
    exists j :: first <= j < first + num && j < |slots| && slots[j].Some? && slots[j].value.source == src
  }

  /** `sources_to_remove`: the distinct sources of slots `[first, first + k)`,
      in order of first appearance. */
  function CollectSources(slots: seq<Option<Connection>>, first: nat, k: nat): (r: seq<Handle>)
    requires first + k <= |slots|
    ensures NoDup(r)
    ensures forall x :: x in r <==> PointsToIn(slots, first, k, x)
  {
    if k == 0 then []
    else
      var acc := CollectSources(slots, first, k - 1);
      var sl := slots[first + k - 1];
      var r := if sl.Some? && sl.value.source !in acc then acc + [sl.value.source] else acc;
      assert forall x :: PointsToIn(slots, first, k, x) <==> PointsToIn(slots, first, k - 1, x) || (sl.Some? && sl.value.source == x);
      r
  }

  /** Slots `[first, first + num)` cleared (source NULL, index 0). */
  function Clear(slots: seq<Option<Connection>>, first: nat, num: nat): (r: seq<Option<Connection>>)
    ensures |r| == |slots|
    ensures forall j :: 0 <= j < |slots| ==> r[j] == if first <= j < first + num then None else slots[j]
  {
    seq(|slots|, j requires 0 <= j < |slots| => if first <= j < first + num then None else slots[j])
  }

  /** The second loop of ma_disconnect: for each collected source, drop
      `tgt` from its dependents when no slot of `tgt` reads from it any more. */
  function DropStale(a: Arena, tgt: Handle, srcs: seq<Handle>): (r: Arena)
    requires tgt < |a|
    requires forall k :: 0 <= k < |srcs| ==> srcs[k] < |a|
    ensures |r| == |a|
    ensures forall x :: 0 <= x < |a| ==>
              r[x] == if x in srcs && !PointsTo(a[tgt].incoming, x)
                      then a[x].(dependents := RemoveAll(a[x].dependents, tgt))
                      else a[x]
  {
    if |srcs| == 0 then a
    else
      var b := DropStale(a, tgt, srcs[..|srcs| - 1]);
      var src := srcs[|srcs| - 1];
      assert srcs == srcs[..|srcs| - 1] + [src];
      assert b[tgt].incoming == a[tgt].incoming;
      if !PointsTo(b[tgt].incoming, src) then
        RemoveAllIdempotent(a[src].dependents, tgt);
        Unregister(b, tgt, src)
      else b
  }

  /** The argument checks of ma_disconnect. */
  predicate DisconnectArgsOk(a: Arena, tgt: Option<Handle>, first: nat, num: nat)
    requires tgt.Some? ==> tgt.value < |a|
  {
    tgt.Some? && num > 0 && !(first >= a[tgt.value].n || num > a[tgt.value].n - first)
  }

  /** ma_disconnect: clears the slots, then every source of a cleared slot
      that `tgt` no longer reads from at all forgets `tgt`. */
  function Disconnect(a: Arena, tgt: Option<Handle>, first: nat, num: nat): (r: Outcome)
    requires Valid(a)
    requires tgt.Some? ==> Live(a, tgt.value)
    ensures !DisconnectArgsOk(a, tgt, first, num) ==> r == Outcome(a, Fail(EINVAL))
    ensures DisconnectArgsOk(a, tgt, first, num) ==>
              var t := tgt.value;
              var cleared := Clear(a[t].incoming, first, num);
              && r.status == Ok && |r.arena| == |a|
              && (forall x :: 0 <= x < |a| ==>
                    r.arena[x] == a[x].(incoming := if x == t then cleared else a[x].incoming,
                                        dependents := if PointsToIn(a[t].incoming, first, num, x) && !PointsTo(cleared, x)
                                                      then RemoveAll(a[x].dependents, t) else a[x].dependents))
              && (forall x :: 0 <= x < |a| && PointsToIn(a[t].incoming, first, num, x) ==>
                    (t in r.arena[x].dependents <==> t in a[x].dependents && PointsTo(cleared, x)))
  {
    if !DisconnectArgsOk(a, tgt, first, num) then Outcome(a, Fail(EINVAL))
    else
      var t := tgt.value;
      var slots := a[t].incoming;
      var srcs := CollectSources(slots, first, num);
      var a1 := SetIncoming(a, t, Clear(slots, first, num));
      assert forall k :: 0 <= k < |srcs| ==> srcs[k] < |a| by {
        assert WellFormed(|a|, a[t]);
        forall k | 0 <= k < |srcs| ensures srcs[k] < |a| {
          assert PointsToIn(slots, first, num, srcs[k]);
        }
      }
      Outcome(DropStale(a1, t, srcs), Ok)
  }

  /** Disconnecting inputs none of which is connected changes nothing. */
  lemma DisconnectUnconnectedNoop(a: Arena, tgt: Handle, first: nat, num: nat)
    requires Valid(a) && Live(a, tgt)
    requires DisconnectArgsOk(a, Some(tgt), first, num)
    requires forall j :: first <= j < first + num ==> a[tgt].incoming[j].None?
    ensures Disconnect(a, Some(tgt), first, num) == Outcome(a, Ok)
  {
    var r := Disconnect(a, Some(tgt), first, num).arena;
    assert r[tgt].incoming == a[tgt].incoming;
    forall x | 0 <= x < |a| ensures r[x] == a[x] {
      assert !PointsToIn(a[tgt].incoming, first, num, x);
    }
  }

  /** ma_disconnect keeps the arena valid and changes no signal. */
  lemma DisconnectKeepsValid(a: Arena, tgt: Handle, first: nat, num: nat)
    requires Valid(a) && Live(a, tgt)
    ensures var r := Disconnect(a, Some(tgt), first, num).arena;
            Valid(r) && SignalsKept(a, r)
  {
    var r := Disconnect(a, Some(tgt), first, num).arena;
    forall h | 0 <= h < |r| ensures WellFormed(|r|, r[h]) && SameSignals(r[h], a[h]) && r[h].live == a[h].live {
      assert WellFormed(|a|, a[h]);
    }
  }

  /** ma_disconnect keeps every invariant. */
  lemma DisconnectKeepsInvariants(a: Arena, tgt: Handle, first: nat, num: nat)
    requires Good(a) && Live(a, tgt)
    ensures Good(Disconnect(a, Some(tgt), first, num).arena)
  {
    var r := Disconnect(a, Some(tgt), first, num).arena;
    DisconnectKeepsValid(a, tgt, first, num);
    SignalsKeptOutputInv(a, r);
    if DisconnectArgsOk(a, Some(tgt), first, num) {
      forall h | 0 <= h < |r| ensures NoDup(r[h].dependents) {
        assert NoDup(a[h].dependents);
        RemoveAllNoDup(a[h].dependents, tgt);
      }
      forall x: nat, j: nat ensures Registered(r, x, j) {
        assert Registered(a, x, j);
        if x < |r| && j < |r[x].incoming| && r[x].live && r[x].incoming[j].Some? {
          assert r[x].incoming[j] == a[x].incoming[j];
          if x == tgt {
            assert PointsTo(r[tgt].incoming, r[x].incoming[j].value.source);
          }
        }
      }
    }
  }

  /** ma_disconnect undoes ma_connect: connecting a span of free inputs to
      a source the target did not read from before, then disconnecting the
      same span, restores the arena exactly. */
  lemma ConnectThenDisconnect(a: Arena, tgt: Handle, first: nat, src: Handle, srcFirst: nat, num: nat, growFails: bool)
    requires Valid(a) && Live(a, tgt) && Live(a, src)
    requires Connect(a, Some(tgt), first, Some(src), srcFirst, num, growFails).status.Ok?
    requires forall j :: first <= j < first + num && j < |a[tgt].incoming| ==> a[tgt].incoming[j].None?
    requires !PointsTo(a[tgt].incoming, src) && tgt !in a[src].dependents
    ensures var r := Connect(a, Some(tgt), first, Some(src), srcFirst, num, growFails).arena;
            && Valid(r) && Live(r, tgt)
            && Disconnect(r, Some(tgt), first, num) == Outcome(a, Ok)
  {
    ConnectKeepsValid(a, tgt, first, src, srcFirst, num, growFails);
    var r := Connect(a, Some(tgt), first, Some(src), srcFirst, num, growFails).arena;
    var d := Disconnect(r, Some(tgt), first, num).arena;
    forall x | 0 <= x < |a| ensures d[x] == a[x] {
      DisconnectUndoesAt(a, tgt, first, src, srcFirst, num, growFails, x);
    }
  }

  /** One record of the round trip: the cleared span gives back the free
      slots, and the entry the append added is the one the removal drops. */
  lemma DisconnectUndoesAt(a: Arena, tgt: Handle, first: nat, src: Handle, srcFirst: nat, num: nat, growFails: bool,
                           x: Handle)
    requires Valid(a) && Live(a, tgt) && Live(a, src) && x < |a|
    requires Connect(a, Some(tgt), first, Some(src), srcFirst, num, growFails).status.Ok?
    requires forall j :: first <= j < first + num && j < |a[tgt].incoming| ==> a[tgt].incoming[j].None?
    requires !PointsTo(a[tgt].incoming, src) && tgt !in a[src].dependents
    ensures var r := Connect(a, Some(tgt), first, Some(src), srcFirst, num, growFails).arena;
            && Valid(r) && Live(r, tgt)
            && Disconnect(r, Some(tgt), first, num).arena[x] == a[x]
  {
    ConnectKeepsValid(a, tgt, first, src, srcFirst, num, growFails);
    var r := Connect(a, Some(tgt), first, Some(src), srcFirst, num, growFails).arena;
    var wired := Wire(a[tgt].incoming, first, src, srcFirst, num);
    assert r[tgt].incoming == wired;
    assert DisconnectArgsOk(r, Some(tgt), first, num);
    WirePointsToIn(a[tgt].incoming, first, src, srcFirst, num, x);
    if x == tgt {
      assert Clear(wired, first, num) == a[tgt].incoming;
    }
    if x == src {
      assert r[src].dependents == a[src].dependents + [tgt];
      assert RemoveAll(a[src].dependents + [tgt], tgt) == a[src].dependents by {
        assert (a[src].dependents + [tgt])[..|a[src].dependents|] == a[src].dependents;
      }
    }
  }

  /** The rewired span reads from `src` and from nothing else. */
  lemma WirePointsToIn(slots: seq<Option<Connection>>, first: nat, src: Handle, srcFirst: nat, num: nat, x: Handle)
    requires 0 < num && first + num <= |slots|
    ensures PointsToIn(Wire(slots, first, src, srcFirst, num), first, num, x) <==> x == src
  {
    var w := Wire(slots, first, src, srcFirst, num);
    assert w[first] == Some(Connection(src, srcFirst));
  }

  // ---------------------------------------------------------------------
  // ma_delete
  // ---------------------------------------------------------------------

  /** `slots` with every connection to `h` nulled out. */
  function Sever(slots: seq<Option<Connection>>, h: Handle): (r: seq<Option<Connection>>)
    ensures |r| == |slots|
    ensures !PointsTo(r, h)
    ensures forall j :: 0 <= j < |slots| ==>
              r[j] == if slots[j].Some? && slots[j].value.source == h then None else slots[j]
  {
    seq(|slots|, j requires 0 <= j < |slots| =>
      if slots[j].Some? && slots[j].value.source == h then None else slots[j])
  }

  /** A slot list extended by one slot points to `x` iff the prefix does or
      the new slot does. */
  lemma PointsToSnoc(p: seq<Option<Connection>>, c: Option<Connection>, x: Handle)
    ensures PointsTo(p + [c], x) <==> PointsTo(p, x) || (c.Some? && c.value.source == x)
  {
    var q := p + [c];
    if PointsTo(q, x) {
      var j :| 0 <= j < |q| && q[j].Some? && q[j].value.source == x;
      if j < |p| {
        assert p[j] == q[j];
      }
    }
    if PointsTo(p, x) {
      var j :| 0 <= j < |p| && p[j].Some? && p[j].value.source == x;
      assert q[j] == p[j];
    }
    if c.Some? && c.value.source == x {
      assert q[|p|] == c;
    }
  }

  /** The first loop of ma_delete over slots `[0, k)` of the dead `h`: a
      live source drops `h` from its dependents. */
  function DetachSources(a: Arena, h: Handle, k: nat): (r: Arena)
    requires h < |a| && WellFormed(|a|, a[h]) && !a[h].live && k <= a[h].n
    ensures |r| == |a|
    ensures forall x :: 0 <= x < |a| ==>
              r[x] == if a[x].live && PointsTo(a[h].incoming[..k], x)
                      then a[x].(dependents := RemoveAll(a[x].dependents, h))
                      else a[x]
  {
    if k == 0 then a
    else
      var b := DetachSources(a, h, k - 1);
      forall x ensures PointsTo(a[h].incoming[..k], x) <==>
                       PointsTo(a[h].incoming[..k - 1], x) || (a[h].incoming[k - 1].Some? && a[h].incoming[k - 1].value.source == x) {
        PointsToSnoc(a[h].incoming[..k - 1], a[h].incoming[k - 1], x);
        assert a[h].incoming[..k] == a[h].incoming[..k - 1] + [a[h].incoming[k - 1]];
      }
      match b[h].incoming[k - 1]
      case Some(c) =>
        if b[c.source].live then
          RemoveAllIdempotent(a[c.source].dependents, h);
          Unregister(b, h, c.source)
        else b
      case None => b
  }

  /** The second loop of ma_delete over entries `[0, k)` of the dead `h`'s
      dependents: in each live dependent, every slot reading from `h` is
      nulled. */
  function DetachDependents(a: Arena, h: Handle, k: nat): (r: Arena)
    requires h < |a| && WellFormed(|a|, a[h]) && !a[h].live && k <= |a[h].dependents|
    ensures |r| == |a|
    ensures forall x :: 0 <= x < |a| ==>
              r[x] == if a[x].live && x in a[h].dependents[..k]
                      then a[x].(incoming := Sever(a[x].incoming, h))
                      else a[x]
  {
    if k == 0 then a
    else
      var b := DetachDependents(a, h, k - 1);
      assert a[h].dependents[..k] == a[h].dependents[..k - 1] + [a[h].dependents[k - 1]];
      var x := b[h].dependents[k - 1];
      assert b[h] == a[h] && x in a[h].dependents;
      if b[x].live then
        assert Sever(Sever(a[x].incoming, h), h) == Sever(a[x].incoming, h);
        SetIncoming(b, x, Sever(b[x].incoming, h))
      else b
  }

  /** ma_delete. A no-op on a null or already deleted automaton; otherwise
      the automaton dies, every live source it read from forgets it, and
      every live dependent stops reading from it. */
  function Delete(a: Arena, h: Option<Handle>): (r: Arena)
    requires Valid(a)
    requires h.Some? ==> h.value < |a|
    ensures h.None? || !a[h.value].live ==> r == a
    ensures h.Some? && a[h.value].live ==>
              var d := h.value;
              && |r| == |a|
              && (forall x :: 0 <= x < |a| ==>
                    r[x] == a[x].(live := x != d && a[x].live,
                                  dependents := if x != d && a[x].live && PointsTo(a[d].incoming, x)
                                                then RemoveAll(a[x].dependents, d) else a[x].dependents,
                                  incoming := if x != d && a[x].live && x in a[d].dependents
                                              then Sever(a[x].incoming, d) else a[x].incoming))
  {
    if h.None? || !a[h.value].live then a
    else
      var d := h.value;
      assert WellFormed(|a|, a[d]);
      var a1 := a[d := a[d].(live := false)];
      var a2 := DetachSources(a1, d, a1[d].n);
      assert a1[d].incoming[..a1[d].n] == a[d].incoming;
      assert a2[d] == a1[d];
      assert a2[d].dependents[..|a2[d].dependents|] == a[d].dependents;
      var r := DetachDependents(a2, d, |a2[d].dependents|);
      assert forall x :: 0 <= x < |a| ==> r[x] == (if a2[x].live && x in a[d].dependents then a2[x].(incoming := Sever(a2[x].incoming, d)) else a2[x]);
      r
  }

  /** ma_delete keeps the arena valid and changes no signal. */
  lemma DeleteKeepsValid(a: Arena, h: Handle)
    requires Valid(a) && h < |a|
    ensures Valid(Delete(a, Some(h)))
    ensures OutputInv(a) ==> OutputInv(Delete(a, Some(h)))
  {
    var r := Delete(a, Some(h));
    forall x | 0 <= x < |r| ensures WellFormed(|r|, r[x]) {
      assert WellFormed(|a|, a[x]);
    }
    if OutputInv(a) {
      forall x | 0 <= x < |r| && r[x].live ensures r[x].output == OutputOf(r[x], r[x].state) {
        assert SameSignals(r[x], a[x]);
      }
    }
  }

  /** Deleting twice is deleting once. */
  lemma DeleteIdempotent(a: Arena, h: Handle)
    requires Valid(a) && h < |a|
    ensures Valid(Delete(a, Some(h)))
    ensures Delete(Delete(a, Some(h)), Some(h)) == Delete(a, Some(h))
  {
    DeleteKeepsValid(a, h);
  }

  /** After deleting a live automaton, no dependents list holds a duplicate
      and the mirrored adjacency still holds. */
  lemma DeleteKeepsGraph(a: Arena, h: Handle)
    requires Valid(a) && GraphInv(a) && DepsDistinct(a) && Live(a, h)
    ensures DepsDistinct(Delete(a, Some(h))) && GraphInv(Delete(a, Some(h)))
  {
    var r := Delete(a, Some(h));
    forall x | 0 <= x < |r| ensures NoDup(r[x].dependents) {
      assert NoDup(a[x].dependents);
      RemoveAllNoDup(a[x].dependents, h);
    }
    forall x: nat, j: nat ensures Registered(r, x, j) {
      DeleteRegisteredAt(a, h, x, j);
    }
  }

  /** One slot of the arena after ma_delete is registered: a slot that
      read from the deleted automaton is free, any other slot keeps its
      source's entry. */
  lemma DeleteRegisteredAt(a: Arena, h: Handle, x: nat, j: nat)
    requires Valid(a) && GraphInv(a) && Live(a, h)
    ensures Registered(Delete(a, Some(h)), x, j)
  {
    var r := Delete(a, Some(h));
    if x < |r| && j < |r[x].incoming| && r[x].live && r[x].incoming[j].Some? {
      var c := r[x].incoming[j].value.source;
      assert r[x].incoming[j] == a[x].incoming[j];
      if Live(r, c) {
        assert Registered(a, x, j);
        assert x in a[c].dependents;
      }
    }
  }

  /** After deleting a live automaton, no live automaton reads from it. */
  lemma DeleteSeversReaders(a: Arena, h: Handle)
    requires Valid(a) && GraphInv(a) && Live(a, h)
    ensures var r := Delete(a, Some(h));
            forall x, j :: 0 <= x < |r| && r[x].live && 0 <= j < |r[x].incoming| && r[x].incoming[j].Some? ==>
              r[x].incoming[j].value.source != h
  {
    var r := Delete(a, Some(h));
    forall x, j | 0 <= x < |r| && r[x].live && 0 <= j < |r[x].incoming| && r[x].incoming[j].Some?
      ensures r[x].incoming[j].value.source != h
    {
      assert Registered(a, x, j);
    }
  }

  /** ma_delete keeps every invariant. */
  lemma DeleteKeepsInvariants(a: Arena, h: Handle)
    requires Good(a) && h < |a|
    ensures Good(Delete(a, Some(h)))
  {
    DeleteKeepsValid(a, h);
    if a[h].live {
      DeleteKeepsGraph(a, h);
    }
  }
}
