# NATS::NUID in Dafny

A model of the unique-token generator of the NATS Ruby client, `NATS::NUID`
(`lib/nats/nuid.rb`). A generator holds:

- a 12-symbol random prefix;
- a counter below 62^10;
- an increment between 33 and 332.

Each call of `next` does two things:

- It adds the increment to the counter. When the sum reaches 62^10 it draws a new prefix, a
  new counter and a new increment (a "rollover").
- It returns the 22-symbol token: the prefix, followed by the counter written as 10 base-62
  digits over `DIGITS` (`0-9A-Za-z`), most significant first.

To save work, `next` memoises the prefix together with the high 7 (resp. 6) digits. It also
memoises the counter's quotient by 62^2 (resp. 62^3). While that quotient is unchanged, it
returns early with only the low 3 (resp. 4) digits recomputed.

The project has three files:

- `base62.dfy` (module `Base62`) holds the following:
  - the alphabet, as a table `Digits` and as the arithmetic `DigitChar`;
  - the fixed-width encoding `Enc(n, k)` and its decoding `Dec`;
  - the round trips, injectivity, order preservation, and the digit split that the memo
    relies on.
- `nuid_spec.dfy` (module `NuidSpec`) holds the generator's instance variables as a value
  `Gen`, and one call of `next` as the function `Step`.
  - `Step` is `Advance` (add the increment, or roll over), then `Emit` (encode, through the
    memo or in full). `Run` repeats `Step` over a sequence of draws.
  - The draws of `SecureRandom` and `Random#rand` are a parameter `Reseed(bytes, sequence,
    incDraw)`. Only a rollover or `initialize` reads it.
  - This module proves the generator's properties: the invariant, the token shape, and that
    the tokens of a run without a rollover are pairwise distinct, whatever prefix the memo
    was built with. While the memo was built with the current prefix (from `initialize` to
    the first rollover, and after any call that rebuilds the memo), it also proves that the
    memo paths agree with the full path and that the tokens strictly increase. It proves the
    finding below as well.
- `nuid.dfy` (module `Nats`) holds the class `Nuid`, with the same fields updated in place:
  - `initialize`, `randomize_prefix!` (a loop appending one symbol per byte),
    `reset_sequential!` and `next` are methods;
  - each method is proved to produce exactly the state and the token that the functions of
    `NuidSpec` give.
  - The encoding half of `next` is the method `Encode`. It keeps the source's successive
    `l /= BASE` divisions, its two early returns and its memo writes.

Ruby's `nil` is modelled as follows:

- `@s_09_seq` and `@s_08_seq` are `Option<nat>`. In Ruby only `nil`, not 0, switches the memo
  checks off.
- `@s_07` and `@s_06` start as `""`, which is what interpolating `nil` gives.

A NUID exists to hand out unique identifiers. The TODO at lib/nats/nuid.rb:63 says a rollover
should also reset the memoised values. The code as written does not, and can repeat a token
right after a rollover (see Findings). The model follows the code as written. The corrected
behaviour, with the memo reset, is modelled beside it.

## Model

| member | source | states |
|---|---|---|
| `Base62.DigitsTable` | lib/nats/nuid.rb:18 | `DIGITS` has 62 entries, '0'-'9' then 'A'-'Z' then 'a'-'z', and entry d is the symbol `DigitChar(d)` |
| `Base62.DigitsAscending` | lib/nats/nuid.rb:18 | `DIGITS` is in strictly ascending character order |
| `Base62.IsDigitIffInDigits` | lib/nats/nuid.rb:18 | a character lies in the three symbol ranges exactly when it is an entry of `DIGITS` |
| `Base62.DigitValue` | lib/nats/nuid.rb:18 | every symbol has a value below 62 whose symbol it is (the inverse of the table) |
| `Base62.EncAllDigits` | lib/nats/nuid.rb:65-131 | every symbol of a k-digit encoding is one of the 62 |
| `Base62.Dec` | lib/nats/nuid.rb:65-131 | decoding k digits gives a number below 62^k |
| `Base62.EncSplit` | lib/nats/nuid.rb:65-131 | the (a+b)-digit encoding is the a-digit encoding of n with b digits shifted out, followed by the b-digit encoding of n |
| `Base62.DecEnc` | lib/nats/nuid.rb:65-131 | decoding the k-digit encoding of n < 62^k gives n back |
| `Base62.EncDec` | lib/nats/nuid.rb:65-131 | every digit string is the encoding of its value |
| `Base62.EncInjective` | lib/nats/nuid.rb:65-131 | on [0, 62^k) two encodings are equal exactly when the numbers are |
| `Base62.EncMonotone` | lib/nats/nuid.rb:65-131 | a smaller number encodes to a lexicographically smaller string |
| `Base62.EncOrder` | lib/nats/nuid.rb:65-131 | on [0, 62^k) encodings compare lexicographically exactly as the numbers do |
| `Base62.BelowIrreflexiveAsymmetric` | lib/nats/nuid.rb:150 | the lexicographic order on tokens is irreflexive and asymmetric |
| `Base62.Enc` | lib/nats/nuid.rb:69-131 | the counter written as exactly k base-62 digits, most significant first; `DecEnc`, `EncDec` and `EncOrder` state its meaning |
| `NuidSpec.Initial` | lib/nats/nuid.rb:29-56 | the state `initialize` leaves: drawn counter and increment, randomised prefix, empty memo; `InitialValid` states its properties |
| `NuidSpec.Advance` | lib/nats/nuid.rb:59-64 | the first half of `next`: add the increment, or on reaching `MAX_SEQ` redraw prefix, counter and increment with the memo kept; `AdvanceBounds` states its properties |
| `NuidSpec.Emit` | lib/nats/nuid.rb:65-150 | the second half of `next`: the two memo paths and the full path with its memo writes; `EmitToken` states its meaning and `Nats.Nuid.Encode` is proved equal to it |
| `NuidSpec.Step` | lib/nats/nuid.rb:58-151 | one call of `next` as written, `Advance` then `Emit`; `Nats.Nuid.Next` is proved equal to it, and `StepKeepsValid`, `StepTokenShape` and `StepWithinEpoch` state its properties |
| `NuidSpec.AdvanceFixed` | lib/nats/nuid.rb:60-64 | `Advance` with the memo quotients cleared on rollover, as the TODO at line 63 asks |
| `NuidSpec.StepFixed` | lib/nats/nuid.rb:58-151 | one call of the corrected `next`; `Nats.Nuid.NextFixed` is proved equal to it, and `StepFixedToken` states its meaning |
| `NuidSpec.PrefixOf` | lib/nats/nuid.rb:153-159 | the prefix has one symbol per byte, and the i-th symbol is `DIGITS[b % 62]` for the i-th byte b |
| `NuidSpec.MaxSeqIsPow` | lib/nats/nuid.rb:23 | `MAX_SEQ` is 62^10 |
| `NuidSpec.InitialValid` | lib/nats/nuid.rb:29-56 | after `initialize` the counter is below `MAX_SEQ`, the increment is in [33, 332], nothing is memoised and the invariant holds |
| `NuidSpec.AdvanceBounds` | lib/nats/nuid.rb:59-64 | after the advance the counter is below `MAX_SEQ` and the increment in [33, 332]; without a rollover the counter grew by the increment, and on a rollover counter, increment and prefix come from the draws |
| `NuidSpec.SplitHigh7` | lib/nats/nuid.rb:78-79 | the ten digits are the seven memoised high digits followed by the low three |
| `NuidSpec.SplitHigh6` | lib/nats/nuid.rb:86-87 | the ten digits are the six memoised high digits followed by the low four |
| `NuidSpec.EmitToken` | lib/nats/nuid.rb:65-150 | on all three paths the token has 22 symbols of `DIGITS` and is the memo's prefix followed by the 10-digit encoding of the counter; afterwards the memo holds the counter's quotients by 62^2 and 62^3; a memo hit keeps `@s_07`, and a miss rebuilds it from the current prefix |
| `NuidSpec.StepKeepsValid` | lib/nats/nuid.rb:58-151 | `next`, as written and as corrected, keeps counter, increment and memo within the invariant |
| `NuidSpec.StepTokenShape` | lib/nats/nuid.rb:58-151 | every token has 22 symbols, each an entry of `DIGITS`; its last 10 are the encoding of the new counter and decode back to it |
| `NuidSpec.StepWithinEpoch` | lib/nats/nuid.rb:78-90 | without a rollover, while the memo was built with the current prefix, the invariant holds and the memo stays so, and the early returns give exactly what the full path would: the prefix followed by the encoding of counter + increment |
| `NuidSpec.StepTokenAbove` | lib/nats/nuid.rb:59 | without a rollover, and while the memo was built with the current prefix (from `initialize` to the first rollover, and after any call that rebuilds the memo), the counter grows by at least 33, and the token is strictly above, so distinct from, the token of the previous counter |
| `NuidSpec.RolloverMemoHit` | lib/nats/nuid.rb:60-90 | when the drawn counter has the memoised quotient by 62^3, the rollover's token is the prefix the memo was built with followed by the drawn counter's encoding, so it does not start with the fresh prefix whenever the two prefixes differ |
| `NuidSpec.TwoCallsBeforeRollover` | lib/nats/nuid.rb:58-90 | from a fresh generator at 62^10 - 1 - 2·inc, two calls leave the memo holding the quotients of 62^10 - 1 with the old prefix, one stride short of rollover |
| `NuidSpec.StaleTokenAfterRollover` | lib/nats/nuid.rb:60-64 | a concrete run in which the call that rolls over returns a token equal to one returned earlier, and not starting with the new prefix |
| `NuidSpec.StepFixedToken` | lib/nats/nuid.rb:60-64 | with the memo reset on rollover, every token is the current prefix followed by the encoding of the current counter, rollover or not |
| `NuidSpec.StepFixedWithinEpoch` | lib/nats/nuid.rb:59-64 | without a rollover the corrected call keeps the invariant and the memo fresh, and returns the prefix and the advanced counter |
| `NuidSpec.AfterIsProgression` | lib/nats/nuid.rb:59 | n strides of c from s reach s + n·c |
| `NuidSpec.AfterIncreasing` | lib/nats/nuid.rb:59 | with a positive stride, the counters of a run strictly increase |
| `NuidSpec.RunWithinEpoch` | lib/nats/nuid.rb:58-151 | over a run of calls of `next` as written that stays below `MAX_SEQ`, while the memo was built with the current prefix (from `initialize` to the first rollover, and after any call that rebuilds the memo), the i-th token is the prefix followed by the encoding of seq + (i+1)·inc, and prefix and increment do not change |
| `NuidSpec.RunOrderedAndDistinct` | lib/nats/nuid.rb:58-151 | within one prefix epoch, while the memo was built with the current prefix (from `initialize` to the first rollover, and after any call that rebuilds the memo), the tokens of `next` as written strictly increase lexicographically, so no two are equal |
| `NuidSpec.RunCounters` | lib/nats/nuid.rb:58-151 | over a run of calls of `next` as written that stays below `MAX_SEQ`, from any valid state, including one whose memo holds an earlier prefix, the i-th token has 22 symbols and its last 10 encode seq + (i+1)·inc; the increment does not change |
| `NuidSpec.RunDistinct` | lib/nats/nuid.rb:58-151 | over such a run, from any valid state, the last 10 symbols of the i-th token encode seq + (i+1)·inc, and no two tokens are equal, even in the epoch entered through a rollover that hit the memo |
| `NuidSpec.ProgressionTokensDistinct` | lib/nats/nuid.rb:150 | tokens whose counter digits encode an increasing progression below `MAX_SEQ` are pairwise distinct, whatever their prefixes |
| `NuidSpec.ProgressionTokensOrdered` | lib/nats/nuid.rb:150 | tokens with one prefix over an increasing run of counters are strictly increasing |
| `NuidSpec.TokensOrdered` | lib/nats/nuid.rb:150 | two tokens with one prefix compare as their counters do |
| `Nats.Nuid.constructor` | lib/nats/nuid.rb:29-56 | `initialize` yields the state `Initial(r)`: counter and increment drawn, memo empty, prefix randomised, invariant holding |
| `Nats.Nuid.RandomizePrefix` | lib/nats/nuid.rb:153-159 | the accumulating loop leaves `@prefix` equal to `PrefixOf(bytes)` |
| `Nats.Nuid.ResetSequential` | lib/nats/nuid.rb:163-166 | the counter becomes the drawn value and the increment becomes 33 plus the drawn value |
| `Nats.Nuid.Next` | lib/nats/nuid.rb:58-151 | the new fields and the token are exactly `Step(old state, r)`, and the invariant is kept |
| `Nats.Nuid.Encode` | lib/nats/nuid.rb:65-150 | the straight-line digit extraction by successive divisions, with its two early returns and its memo writes, computes exactly `Emit` of the state |
| `Nats.Nuid.NextFixed` | lib/nats/nuid.rb:60-64 | the corrected `next` computes `StepFixed`, keeps the invariant and a fresh memo, and returns the current prefix followed by the encoding of the counter |
| `Nats.CounterDigits` | lib/nats/nuid.rb:65-131 | the symbols taken by successive divisions are the low 3 and 4 digits, the 6 and 7 above them, and the full 10-digit encoding |

## Left out

- The class-level `NUID.next` and the `@@nuid` singleton guarded by `MonitorMixin`
  (lib/nats/nuid.rb:168-175). They only serialise calls. The model describes calls on one
  instance.
- `SecureRandom.random_bytes` and `Random#rand` (lib/nats/nuid.rb:30-32, 155, 164-165). They
  are foreign randomness sources. Their outputs are the caller-supplied `Reseed`, limited to
  their documented ranges.
- Token order in an epoch entered through a rollover that hit the memo. The tokens switch from
  the old prefix to the new one once the memo is rebuilt, and the two random prefixes can
  compare either way. `NuidSpec.RunDistinct` still proves that no two of those tokens are equal.
- Cross-epoch collision probability. It depends on the randomness, which the model does not
  describe.
- The memo strings `@s_10`, `@s_09`, `@s_08` and `@s_05`..`@s_01`, and the quotients
  `@s_07_seq`..`@s_01_seq`. The source sets them (lines 35-54, 142-146, 149) but never reads
  them, so they cannot affect any result.
- The commented-out memo levels (lines 94-135) and the unused `SUFFIX` (line 27). They have no
  behaviour.
- `DIGITS` is `seq(BASE, DigitChar)`. `Base62.DigitsTable` proves it equal to the source's
  62-character string, written as its three runs.
- `Encode` writes each symbol `DIGITS[l % BASE]` as `DigitChar(l % BASE)`, which is the table
  entry by definition.
- `MAX_SEQ` is written as its value, and `NuidSpec.MaxSeqIsPow` proves it equal to 62^10.
- Strings are sequences of characters. Ruby's string mutation (`<<`) becomes building a new
  sequence.
- The client library's other parts are not part of this model: connection handling,
  subscriptions and requests (spec/client_spec.rb), and the example scripts. No source for
  them is modelled here.

## Findings

| source | as written | input that shows it | evidently intended | confidence | as-written member | corrected member |
|---|---|---|---|---|---|---|
| lib/nats/nuid.rb:60-64 | a rollover redraws prefix, counter and increment but keeps `@s_09_seq`, `@s_08_seq`, `@s_07` and `@s_06` (the code's own TODO at line 63) | a fresh generator with increment c and counter 62^10 - 1 - 2c calls `next` twice; on the third call it rolls over, drawing counter 62^10 - 1 - c and a different prefix; that call returns the first call's token again, with the old prefix | forget the memo on rollover, so that every token starts with the current prefix and no token repeats | not executed; proved in the model | `NuidSpec.StaleTokenAfterRollover` | `NuidSpec.StepFixedToken` |
