# Moore automaton network simulator — Dafny model

This project models `ma.c`, a C library that simulates networks of binary
Moore automata. An automaton has `n` input bits, `m` output bits and `s`
state bits, a transition function `t` and an output function `y`. Outputs of
one automaton can be wired to inputs of another, and `ma_step` advances a
list of automata synchronously.

The model is functional. All automata live in an *arena*, a sequence of
immutable records addressed by handles (indices). The C `magic` tag that
marks an object as alive or deleted becomes the `live` flag of a record. A
deleted record stays in the arena, so a stale handle still names a record
whose flag can be read. A C NULL is `None`.

- `bits.dfy` (module `Bits`): bit buffers as `seq<bool>` of their declared
  width, and the packed 64-bit-word layout the C code uses (`bit_word`,
  `bit_pos`, the `(x + 63) / 64` sizing, setting one bit, the masking done by
  `identity_func`). A word is modelled as its 64 bits, so shifts and masks
  become indexing. The packed view is proved to agree with the bit view.
- `moore.dfy` (module `Moore`): the record, the arena, the invariants,
  creation, `identity_func`, and the manual signal operations
  (`ma_set_input`, `ma_set_state`, `ma_get_output`).
- `graph.dfy` (module `Graph`): the connection graph. A target's input slots
  each name a source and one of its outputs. A source's `connected_to_me`
  list is called `dependents` here. The module covers
  `append_to_connected_list`, `remove_connected`, `ma_connect`,
  `is_connected_to`, `ma_disconnect` and `ma_delete`.
- `step.dfy` (module `Step`): `update_final_input` and the three phases of
  `ma_step`.

Invariants (`Moore.Good`):

- every buffer has its declared width;
- every live automaton's output is `y` of its state;
- if a live target reads from a live source, the target is in the source's
  dependents list;
- no dependents list holds a handle twice.

The graph invariant is one-sided on purpose. `ma_connect` never removes a
replaced source's dependents entry, so a source may list a target that no
longer reads from it.

Behaviour kept exactly as the C code has it:

- `ma_connect` rewrites the slots before it tries to grow the dependents
  array. When that allocation fails, the call reports ENOMEM and leaves the
  new slots unregistered (`Graph.ConnectFailureUnregistered`).
- An automaton listed twice in `ma_step` is swapped twice. It ends with its
  old state and an updated next-state buffer (`Step.StepTwiceListedKeepsState`).
- When `ma_step` meets a null entry, the automata listed before it already
  have their final input updated. No state or output changes.

## Model

| member | source | states |
|---|---|---|
| Bits.BitIndexing | ma.c:565-573 | bit `i` of a `w`-bit buffer sits in a word below `(w + 63) / 64`, at a position below 64; word and position give back `i`, and different bits get different (word, position) pairs |
| Bits.SetBit | ma.c:627-628 | OR-ing the mask `1 << (i % 64)` into word `i / 64` sets bit `i` and leaves every other bit as it was |
| Bits.IdentityWords | ma.c:196-211 | with `m == s > 0`, the words hold the state's first `s` bits and zero above them; otherwise the output buffer is left as it was |
| Moore.IdentityWordsAgree | ma.c:196-211 | with `m == s`, identity_func overwrites the whole output with the state, whatever the buffer held before (as at every call, from creation, ma_set_state and ma_step); with `m != s` it leaves the buffer exactly as it was; the bit-level `Identity` is the same result whenever that untouched buffer is still all zero |
| Moore.CreateFull | ma.c:78-186 | EINVAL exactly when `t`, `y` or `q` is missing or `m == 0` or `s == 0`; otherwise a new live record is appended with state `q`, output `y(q)` at width `m`, zeroed inputs, no connections and no dependents; existing records are untouched and the invariants are preserved |
| Moore.CreateSimple | ma.c:221-246 | EINVAL exactly when `s == 0` or `t` is missing; otherwise a fresh automaton with `m == s`, the identity output function, an all-zero state and an all-zero output |
| Moore.CreateThenGetOutput | ma.c:158-170 | right after creation, ma_get_output on the new automaton returns `y` of the initial state |
| Moore.SetInput | ma.c:511-522 | EINVAL for a null automaton, a null buffer or `n == 0`; otherwise only the manual input of that automaton changes, to the given bits, and the invariants are kept |
| Moore.SetState | ma.c:531-543 | EINVAL for a null automaton or state; otherwise only that automaton's state and output change, the state to the given bits and the output to `y` of them |
| Moore.GetOutput | ma.c:553-562 | EINVAL for a null automaton; otherwise an `m`-bit result that equals `y` of the current state whenever the output invariant holds |
| Moore.SetStateThenGetOutput | ma.c:539-541 | after ma_set_state, the output read back is `y` of the state just set |
| Graph.RemoveAll | ma.c:340-354 | the result never contains the removed handle, holds exactly the other handles of the list, is no longer than the list, and is the list itself when the handle was absent |
| Graph.RemoveAllConcat | ma.c:345-352 | removal distributes over concatenation, so the surviving entries keep their relative order |
| Graph.RemoveAllCount | ma.c:345-352 | every other handle keeps its number of occurrences, and the removed one has none |
| Graph.RemoveAllNoDup | ma.c:340-354 | removal from a duplicate-free list leaves it duplicate-free |
| Graph.RemoveConnected | ma.c:340-354 | the read-index / write-index compaction computes the order-preserving removal, with a count no larger than before |
| Graph.AppendDependent | ma.c:255-288 | a handle already listed leaves the list unchanged; otherwise it is appended at the end, or the call fails (allocation failure); a success lists the handle, keeps the old list as a prefix and keeps the list duplicate-free |
| Graph.AppendToConnectedList | ma.c:255-288 | the duplicate scan followed by an append computes the same result and success flag as `AppendDependent` |
| Graph.Connect | ma.c:300-332 | EINVAL for a missing automaton, `num == 0` or a span past the target's `n` or the source's `m`, with nothing changed; otherwise slot `first + i` names output `srcFirst + i` of the source for every `i < num`, every other slot and every other automaton is unchanged, and the source's dependents gain the target unless already listed; ENOMEM only when the target was not yet listed and the array could not grow |
| Graph.ConnectKeepsValid | ma.c:318-329 | whatever its outcome, ma_connect keeps every buffer width and handle in range and changes no signal |
| Graph.ConnectKeepsInvariants | ma.c:318-331 | a successful ma_connect keeps every invariant |
| Graph.ConnectRegistersOnce | ma.c:258-264 | after a successful ma_connect the target occurs exactly once in the source's dependents |
| Graph.ConnectFailureUnregistered | ma.c:318-329 | when the dependents array cannot grow, the slots are already rewired but the target is not registered, so the graph invariant fails for that slot |
| Graph.ReconnectIdempotent | ma.c:258-264 | repeating a successful ma_connect succeeds and changes nothing, so re-connecting adds no duplicate |
| Graph.IsConnectedTo | ma.c:413-423 | returns nothing exactly when every input slot is free, and otherwise the source named by the first occupied slot |
| Graph.CollectSources | ma.c:452-472 | the collected sources are duplicate-free and are exactly the automata that some slot of the span reads from |
| Graph.DropStale | ma.c:481-499 | each collected source that no slot of the target reads from any more forgets the target; every other automaton is unchanged |
| Graph.Disconnect | ma.c:433-502 | EINVAL for a null target, `num == 0` or a span past `n`; otherwise exactly the slots of the span are cleared, and a source of a cleared slot keeps the target in its dependents if and only if it listed it before and some slot of the target still reads from it; nothing else changes |
| Graph.DisconnectUnconnectedNoop | ma.c:452-477 | disconnecting a span whose slots are all free changes nothing |
| Graph.DisconnectKeepsInvariants | ma.c:433-502 | ma_disconnect keeps every invariant |
| Graph.ConnectThenDisconnect | ma.c:300-502 | connecting a span of free inputs to a source, then disconnecting the same span, restores the arena exactly, provided that no slot of the target read from the source and the source's dependents did not list the target before (a stale entry left by a rewiring connect would be dropped by the disconnect) |
| Graph.Sever | ma.c:387-393 | every slot reading from the deleted automaton becomes free and every other slot is kept |
| Graph.DetachSources | ma.c:371-378 | after the first loop of ma_delete, exactly the live automata the deleted one read from have dropped it from their dependents |
| Graph.DetachDependents | ma.c:381-394 | after the second loop, exactly the live automata in the deleted one's dependents list have their slots reading from it freed; other slots are untouched |
| Graph.Delete | ma.c:364-405 | a null or dead automaton is a no-op; otherwise only the deleted automaton dies, each live source it read from drops it from its dependents, each live dependent stops reading from it, and no signal changes |
| Graph.DeleteKeepsValid | ma.c:364-394 | ma_delete keeps every buffer width and handle in range, and keeps the output invariant |
| Graph.DeleteIdempotent | ma.c:366-368 | deleting twice is deleting once |
| Graph.DeleteKeepsGraph | ma.c:371-394 | deletion keeps the graph invariant and duplicate-free dependents |
| Graph.DeleteKeepsInvariants | ma.c:364-394 | ma_delete keeps every invariant |
| Graph.DeleteSeversReaders | ma.c:381-394 | after deleting a live automaton, no live automaton reads from it |
| Step.FinalInputBit | ma.c:595-624 | a driven input bit (live source, index below the source's `m`) is the source's current output bit; any other bit is the manual input bit |
| Step.UpdateFinalInput | ma.c:582-630 | the word-level loop stores exactly the merged final input, with every bit past `n` zero |
| Step.Resolve | ma.c:650-658 | after phase one, each listed automaton's final input is the merge of the outputs before the step and its manual input; nothing else changes |
| Step.Evaluate | ma.c:661-665 | after phase two, each listed automaton's next state is `t` of its final input and its state; nothing else changes |
| Step.SettleStep | ma.c:668-679 | one more swap-and-recompute moves an automaton from `k` to `k + 1` applications: swapped for odd `k + 1`, back in place for even |
| Step.Commit | ma.c:668-679 | after phase three, an automaton listed `k` times has been swapped `k` times, with its output `y` of the state it ends with; unlisted automata are unchanged |
| Step.LeadingHandles | ma.c:650-656 | the handles read before the first null entry, entry for entry, ending at a null entry or the end of the list |
| Step.Step | ma.c:641-681 | EINVAL for a null or empty list or a null entry; an empty or null list changes nothing; after a null entry, only the final inputs of the automata listed before it are updated; a success updates each listed automaton from its state and the outputs before the step, by its number of occurrences, and leaves every unlisted automaton unchanged |
| Step.StepKeepsInvariants | ma.c:668-679 | a step, successful or not, keeps every invariant; in particular each live output is `y` of the state afterwards |
| Step.StepListed | ma.c:641-681 | a non-empty, null-free list of live automata steps successfully; each listed automaton gets its final input, its computed next state and one swap per listing, and every other record is unchanged |
| Step.StepSynchronous | ma.c:641-681 | with a duplicate-free list, each listed automaton's new state is `t` of the final input (formed from the outputs before the step) and the old state, and its new output is `y` of the new state |
| Step.StepTwiceListedKeepsState | ma.c:668-679 | an automaton listed twice keeps its state, its output becomes `y` of that state, and its next-state buffer holds the computed next state |
| Step.StepPermutation | ma.c:641-681 | two null-free lists holding the same automata the same number of times give the same result (every null-free list is `Listed` of its handles, by `Step.ListedLeading`) |
| Step.StepFailureKeepsSignals | ma.c:643-658 | a failing step changes nothing but final inputs |
| Step.SetInputSeenIffFree | ma.c:602-624 | after ma_set_input, a final input bit reads the new manual bit exactly when the input is not driven by a live source; a driven bit is unaffected |
| Step.DeleteFallsBackToManual | ma.c:381-394 | once an automaton's source is deleted, the input it read from that source falls back to the manual input |

## Left out

- Allocation failure in `ma_create_full` and `ma_create_simple` (`calloc`
  returning NULL, ENOMEM) and the `SIZE_MAX` overflow guards are not
  modelled. Creation with valid arguments always succeeds. Widths are
  unbounded naturals.
- The capacity-doubling of the dependents array is replaced by a sequence.
  The only observable trace of it, a failed `realloc`, is the `growFails`
  argument of `Graph.Connect`.
- `errno` is not a global. Each failing operation returns its error value.
- Freeing memory is not modelled. A deleted record stays in the arena with
  `live == false`, and handles are never reused.
- Passing the address of a deleted or foreign object is undefined behaviour
  in C (the code reads freed memory). The model requires every non-null
  handle to name a live record. `ma_delete` is the exception: it accepts a
  deleted record and does nothing, as its magic check does.
- Graph.RemoveAll: `remove_connected` also drops null entries, but the
  model's dependents lists hold handles only and can never contain null.
- The bodies of the user's `t` and `y` are not modelled. They are total
  functions of their inputs. A result of the wrong length is read through
  `Bits.Fit`: it is truncated or zero-padded to the buffer width.
- `t` writes into the next-state buffer, which still holds an earlier state.
  The model treats `t` as a pure function of input and state, so a `t` that
  leaves some bits unwritten is not modelled.
- Bits past the declared width inside the last storage word (for example,
  state words copied whole from `q` by `memcpy`) are not modelled by the
  arena records. The `Bits` module models them for packed buffers.
- Moore.Identity: `identity_func` with `m != s` writes nothing, so its
  buffer keeps what `calloc` gave it. The model treats every output
  function, like `t`, as writing its whole buffer, and takes that result to
  be all zero. `Moore.IdentityWordsAgree` states the untouched-buffer
  behaviour on packed words.
- Bits.BitWord: `bit_word` and `bit_pos` cast their `size_t` result to
  `int`. Once `idx / 64` exceeds `INT_MAX` the cast no longer gives the
  word index, and `update_final_input` would index with the wrong value.
  The model uses unbounded word indices, so it does not model widths of
  `64 * 2^31` bits or more.
- `ma.h` declares prototypes only and is not part of this model.
