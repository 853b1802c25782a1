# Exact arithmetic in openlibm and the pthread port over the HAL

Two families of code are modelled, each statement being about every input or every run.

**openlibm: arithmetic on machine words.** The bit-by-bit square roots, the shift-and-subtract
remainders `fmod`, `fmodf` and `fmodl`, the round-half-even `remainder` and `remainderf`, the parity
and sign logic of `pow`, and the continued fraction and recurrences of `jn`.

**pthread: small concurrent protocols.** The counting semaphore, the three-state mutex, the
condition variable, the barrier and the retirement of threads, as step machines over any number of
threads on top of the semaphore of `pthread/phal.h` (a lock with a wait set).

## How the arithmetic is modelled

* A finite datum is a natural number, its magnitude counted in units of the smallest subnormal
  (`Ieee754.Mag`): 2^-149, 2^-1074 and 2^-16494 for the three formats. Correct rounding and exact
  remainders are then statements about integers. The formats are those of section 3.4 of
  IEEE 754-2008, square root that of section 5.4.1, remainder that of section 5.3.1 and fmod that of
  section 7.12.10.1 of ISO C11.
* Words are naturals below 2^32 (or 2^w). `x >> k` is `Shr(x, k)`, `x & (2^k - 1)` is `Low(x, k)` or
  `%`, `<<` is `Scale` with the wrap-around written out, and bitwise or is the function `Or`, which is
  shown to be a sum wherever the operands share no bit. A signed word is read by `Signed32`; its right
  shift rounds towards minus infinity. Pairs of words are joined as `hi * 2^32 + lo` in one layer
  (`WordPairs`), and the algorithms are proved above it.
* `openlibm/src/e_fmod.c` and `openlibm/src/e_fmodl.c` are one program at two widths. `Fmod` is written
  over a `Layout` and instantiated at `DOUBLE` and `QUAD` (`LayoutsValid`); `fmodl` is taken at the
  binary128 layout that its constants describe.
* `openlibm/src/e_sqrt.c:124` can shift a word by 32. The parameter `keeps` says whether such a shift leaves the
  word unchanged or clears it, and every result holds for both.
* The probes `one - tiny >= one` and `one + tiny > one` at the end of both square roots distinguish
  three rounding modes; all three are covered. Elsewhere arithmetic is round-to-nearest.
* Floating-point operations inside `remainder` are `FloatArith.Add`, `Subtract` and `Round`, which
  round to nearest even; that each of them is exact is proved, not assumed.
* `jn` is over the reals.

## How the protocols are modelled

* Each protocol has a state, an enabling condition and a step function for each event. A thread's
  control state says which source line it is about to run. Runs are finite sequences of events from
  any initial state, interleaved in any way; the invariants are proved over all of them.
* Sleeping on the HAL semaphore releases its lock and joins the wait set in one step; a signal takes
  any one sleeper; a sleeper may also wake by timeout, interruption or for no reason; waking takes the
  lock again, later. Signals do not persist.
* `Runs` has the definitions that all machines share: what a run is, what it means that every step
  keeps a property, and that runs then keep it.
* The classes `Semaphore`, `Mutex`, `Condition`, `Barrier` and `ThreadTable` hold the source's own fields
  and run its code between two points where another thread can run. Their contracts tie the fields to
  the step functions; for the semaphore and the condition the lemmas `...IsRun` say that the block is
  a run of the machine.
* The mutex inside `Cond` and the mutex and condition inside `Barrier` are at their POSIX meaning.
  `Mutex.RefinesLock` and `Cond.RefinesMonitor` relate the implementations to it. Both are about safety
  only: below, the mutex loses wake-ups and the condition variable deadlocks, so what `Barrier` says
  about progress (`Drains`) does not carry over to a barrier built from them. The
  barrier's critical sections are single steps.

## Where the code does less than its documentation promises

* `remainder`: `openlibm/src/e_remainder.c:72` looks at the high word only, so a result that should
  have the opposite sign of x and is below 2^-1042 in magnitude comes back with the sign of x.
  `RightExactlyWhen` says for which operands, `SmallestExample` calls the routine on a pair. The float
  version has no such case.
* `pthread_cond_wait` with a recursive mutex: `pthread/rthread_cond.c:105` undoes one level of locking, so the
  mutex is released exactly if it was locked once (`ReleasedExactly`, `RecursiveMutexStaysLocked`).
* `pthread_cond_wait` takes the mutex back while it still holds `cond->sem`
  (`pthread/rthread_cond.c:124-125`), and whoever holds the mutex may need `cond->sem`. A thread in line
  124 can still return if and only if the mutex is free or its own, or its holder is outside or past
  line 125 (`RelockReturnsExactly`); the deadlock can be reached, without timeouts or interruptions, if
  and only if there are at least two threads (`JamsExactly`). `SignalThenWaitJams` is the run; its calls
  are those of a barrier of threshold two that is used twice.
* The mutex loses a wake-up when the unlocking thread signals between the exchange of
  `pthread/rthread_mutex.c:189` or `207` and the wait of line 199, or when the signal goes to a thread
  that waits in line 120 after deadlocking with itself (`ForgetsExactly`). This can happen if and only if
  there are at least two threads (`LosesExactly`, `WakeupLost`); with two threads the sleeper then sleeps
  until something other than the mutex wakes it (`ForgottenForever`).
* A signal frees a blocked waiter if and only if some thread is asleep in the wait set. It is lost
  exactly when nobody is and some waiter is just then awake from an interruption, which sends it back
  to sleep (`SignalLostExactly`). `InterruptedWaiterMissesSignal` is a run with two waiters and two
  signals that frees one of them.
* The barrier: with more participants than the threshold, `pthread/rthread_barrier.c:115` can overwrite a
  non-zero `out`, for every threshold of at least two and any larger number of threads
  (`OutIsSafeExactly`), also without wake-ups for no reason. With at most threshold participants the
  one-at-a-time signals depend on waiters being woken in the order in which they blocked, which `phal.h`
  does not promise, if and only if there are exactly threshold of them and the threshold is at least
  three (`OrderMattersExactly`). Then, for any such number, a run exists at whose end everybody sleeps
  (`WithoutFifoAWaiterIsStuck`) and nothing can happen any more but a wake-up without a signal
  (`OnlyWakeRemains`).
* `pthread_barrier_init` does not reject a count of 0, nor one from 2^31 on: nobody ever leaves such a
  barrier (`Rounds`).
* A thread that is detached when it exits goes onto the gc list without `THREAD_DONE`, and the reaper
  never takes it off (`ReapableExactly`, `DetachedIsNeverReaped`); `DetachedExits` is such a run.
* An exiting thread still uses its own record after setting `THREAD_DONE`: it posts `donesem`
  (`pthread/rthread_thread.c:154`) and calls `phal_thread_exit` on it (`pthread/rthread_internal.c:166`).
  A join or detach call can retire the record and the reaper destroy it before that. For the last use this
  can happen exactly while the thread is neither the initial one nor detached nor gone and its call is not
  over without having freed the record; for the post, exactly if that call is, in addition, a detach or
  still to be made (`DestroyedUnderExactly`, `PostsAfterDestruction`).
* The value of a semaphore is an `int`, but `sem_init` accepts any unsigned count and line 101 of
  `pthread/rthread_sem.c` does not check for overflow. `value` is the number of units if and only if there
  are fewer than 2^31 (`ValueExact`), from 2^31 on it can be negative from the start
  (`InitCanBeNegative`), and the signed increment overflows exactly when 2^31 - 1 units modulo 2^32 are
  there (`OverflowExactly`, `PostCanOverflow`). The model wraps around there. Read as an unsigned count,
  units are conserved exactly as long as there are fewer than 2^32 (`Conservation`).

## Model

| member | source | states |
|---|---|---|
| SqrtDouble.Sqrt | openlibm/src/e_sqrt.c:95-189 | for every argument: NaN exactly for NaN and negative non-zero numbers, zeros and +inf unchanged, and otherwise the correctly rounded root, subnormals included, in each rounding mode and whatever a shift by 32 does |
| SqrtDouble.ShiftSubnormal | openlibm/src/e_sqrt.c:118-128 | the two loops normalise every subnormal with its true exponent, for either behaviour of the shift by 32 |
| SqrtDouble.HighStep | openlibm/src/e_sqrt.c:142-150 | one round on words is one step of the integer digit recurrence |
| SqrtDouble.Accept | openlibm/src/e_sqrt.c:158-162 | accepting a bit adds 2r to the doubled root with the carry into s0, and subtracts s + r with the borrow from ix0, without overflow |
| SqrtDouble.LowStep | openlibm/src/e_sqrt.c:155-167 | the second loop's round, on word pairs, is one step of the same recurrence and keeps s == 2q |
| SqrtDouble.RootBits | openlibm/src/e_sqrt.c:136-168 | both loops together leave the integer root of X*2^54 and its remainder |
| SqrtDouble.RoundWords | openlibm/src/e_sqrt.c:171-182 | the rounding with its carries at 0xffffffff and 0xfffffffe chooses the significand that RoundingIsCorrect asks for |
| SqrtDouble.PackWords | openlibm/src/e_sqrt.c:183-187 | packing is exponent plus significand, with the carry into the exponent |
| SqrtFloat.Sqrtf | openlibm/src/e_sqrtf.c:23-86 | the same for single precision, all arguments and modes |
| SqrtFloat.RootBits | openlibm/src/e_sqrtf.c:56-69 | the loop is 25 steps of the digit recurrence with s == 2q |
| SquareRoot.DigitStep | openlibm/src/e_sqrt.c:141-151 | testing a bit keeps rem*r == n - q*q with the remainder below the next step's bound; after the last bit rem is twice n - q*q |
| SquareRoot.RunDigits | openlibm/src/e_sqrt.c:141-168 | the recurrence run to any bit satisfies the digit invariant |
| SquareRoot.AllDigitsRoot | openlibm/src/e_sqrt.c:171 | the final q is the integer part of the root, and the remainder is zero exactly for perfect squares |
| SquareRoot.RoundingIsCorrect | openlibm/src/e_sqrt.c:170-186 | the packed result compares with every other datum as correct rounding demands; to nearest the root is strictly on its side of every midpoint, so no tie exists |
| SquareRoot.RootUnique | openlibm/src/e_sqrt.c:18 | at most one datum is the correctly rounded root |
| SquareRoot.HalveExponent | openlibm/src/e_sqrt.c:127-133 | doubling the significand for an odd exponent and halving keeps the value |
| Fmod.Fmod | openlibm/src/e_fmod.c:30-133 | for every operand pair: NaN exactly for the invalid ones, and otherwise the sign of x with the magnitude of x modulo that of y, exactly; at both word widths |
| Fmod.LayoutsValid | openlibm/src/e_fmodl.c:26-129 | the double and the binary128 constants are instances of the layout |
| Fmod.Ilogb | openlibm/src/e_fmod.c:51-67 | the exponent loops terminate with the true exponent |
| Fmod.Align | openlibm/src/e_fmod.c:69-93 | alignment keeps significand times power of two equal to the operand |
| Fmod.Reduce | openlibm/src/e_fmod.c:95-107 | the shift-and-subtract loop leaves Mx*2^d mod My, the early zero return included |
| Fmod.Difference | openlibm/src/e_fmod.c:98 | the pair subtraction with its borrow is exact, negative exactly when the first pair is smaller, and neither signed operation on the high words overflows |
| Fmod.Twice | openlibm/src/e_fmod.c:99-103 | doubling a remainder with the carry into the high word is exact and does not overflow the signed word |
| Fmod.Renormalise | openlibm/src/e_fmod.c:112-115 | renormalising keeps the value and stops at the implicit bit |
| Fmod.PackNormalWords | openlibm/src/e_fmod.c:116-118 | the encoded result has exactly the remainder's magnitude |
| Fmod.PackSubnormalWords | openlibm/src/e_fmod.c:119-129 | no branch of the subnormal output shifts out a set bit |
| ExactRemainder.ReduceStep | openlibm/src/e_fmod.c:97-105 | one subtraction keeps the significand congruent and below twice the divisor |
| ExactRemainder.StaysZero | openlibm/src/e_fmod.c:101-102 | once the difference is zero the remainder of all further steps is zero |
| ExactRemainder.RemainderValue | openlibm/src/e_fmod.c:95-107 | the reduced significand at y's exponent has the value of x modulo y |
| ExactRemainder.ModuloIsRemainder | openlibm/src/e_fmod.c:17-21 | repeated subtraction is the Euclidean remainder |
| FmodFloat.Fmodf | openlibm/src/e_fmodf.c:32-105 | the float version, all operands |
| FmodFloat.Reduce | openlibm/src/e_fmodf.c:74-86 | its loop, with the early exit |
| FmodFloat.Pack | openlibm/src/e_fmodf.c:95-103 | its lossless output |
| RemainderFloat.Remainderf | openlibm/src/e_remainderf.c:27-66 | for every operand pair: NaN exactly for the invalid ones, x for infinite p, and otherwise the nearest remainder with the sign of x on a zero |
| RemainderDouble.RemainderWords | openlibm/src/e_remainder.c:35-75 | the double version: always the right magnitude; a negative remainder gets its sign only from 2^32 units on; the result is x REM p if and only if the reduced dividend is not within 2^32 units below the divisor or its double |
| RemainderDouble.RightExactlyWhen | openlibm/src/e_remainder.c:71-73 | a result with that magnitude and that sign is x REM p if and only if the operands do not lose the sign |
| RemainderDouble.SmallestExample | openlibm/src/e_remainder.c:72 | the code answers +1 unit for 3 and 4 units, where x REM p is -1 |
| NearestRemainder.FoldIsNearest | openlibm/src/e_remainder.c:55-69 | reducing modulo 2p keeps the quotient's parity, so folding gives x - n*p with n nearest to x/p, ties to even |
| NearestRemainder.NearestUnique | openlibm/src/e_remainder.c:55-69 | there is only one such remainder |
| NearestRemainder.Halve | openlibm/src/e_remainder.c:59-70 | both comparison branches compute the same fold, and every sum, difference and half in them is exact |
| FloatArith.Sterbenz | openlibm/src/e_remainder.c:61-68 | numbers within a factor of two have a representable difference |
| FloatArith.RoundExact | openlibm/src/e_remainder.c:60-68 | rounding changes nothing that fits the significand |
| FloatArith.RoundIsNearest | openlibm/src/e_remainder.c:60-68 | rounding takes the nearest number that fits, and of two equally near ones the one with an even significand |
| FloatArith.MagEncode | openlibm/src/e_remainder.c:71-73 | every number that fits is the magnitude of its encoding |
| FloatArith.EncodeMag | openlibm/src/e_remainder.c:71-73 | and decoding is inverted by encoding |
| PowSign.YIsInt | openlibm/src/e_pow.c:121-139 | for negative x, yisint is 0, 1 or 2 exactly as y is no integer, an odd one or an even one, in all three exponent ranges |
| PowSign.MiddleRange | openlibm/src/e_pow.c:130-137 | the two shift tests on the low and on the high word |
| PowSign.Pow | openlibm/src/e_pow.c:107-192 | NaN exactly for the invalid cases, and negative exactly for a negative x and an odd integer y; the magnitude is one, infinite or zero exactly when abs(x)**y is, and otherwise the one of x, 1/x, x*x, x*x*x, u*u and sqrt(x) whose exponent is the value of y, or the general case exactly if there is none |
| PowSign.SpecialExactly | openlibm/src/e_pow.c:152-166 | the words tested are those of the only y with the value -1, 1/2, 1, 2, 3 or 4 |
| PowSign.InfiniteY | openlibm/src/e_pow.c:143-151 | one, infinity or zero as the magnitude of x and the sign of y demand |
| Jn.TermCount | openlibm/src/e_jn.c:158-166 | the loop terminates with the smallest k whose Q(k) is at least 1e9 |
| Jn.Growth | openlibm/src/e_jn.c:151-153 | Q grows by more than one at each step, and by more each time |
| Jn.Backward | openlibm/src/e_jn.c:167-168 | the backward loop stays between 0 and 1 and is P(k)/Q(k) |
| Jn.FrontRecursion | openlibm/src/e_jn.c:137-153 | the recurrence for Q develops the same continuant from its other end |
| Jn.ConvergentGap | openlibm/src/e_jn.c:149-156 | consecutive convergents differ by exactly 1/(Q(k)*Q(k-1)) |
| Jn.Truncation | openlibm/src/e_jn.c:149-156 | stopping at k errs by less than 1/Q(k) against every deeper convergent, from below |
| Jn.RelativeTruncation | openlibm/src/e_jn.c:149-156 | relative to any deeper convergent the error of stopping at k is below 1/Q(k) |
| Jn.StopsClose | openlibm/src/e_jn.c:158-168 | so the convergent where the loop stops is below every deeper one, by less than 1e-9 and by less than 1e-9 of that one |
| Jn.StopsOnce | openlibm/src/e_jn.c:158-166 | the k of the loop is the only one |
| Jn.Scaled | openlibm/src/e_jn.c:188-202 | the rescaling recurrence keeps (t, a, b) a common positive multiple of the plain one's |
| Jn.Plain | openlibm/src/e_jn.c:180-187 | the plain loop computes the recurrence |
| Jn.SelectScales | openlibm/src/e_jn.c:188-209 | a common positive factor changes neither the chosen quotient nor its value |
| Jn.JnBackward | openlibm/src/e_jn.c:155-209 | with and without rescaling: J(n) of the only solution of the three-term recurrence that has as its ratio the convergent where the loop stops, and as J(0) or J(1) the larger of the two given values; a division by zero exactly if all such solutions vanish there. Given both values of such a solution, not both zero, it is that J(n) |
| Jn.SelectIsValue | openlibm/src/e_jn.c:205-209 | what the last division computes, for any ratio |
| Jn.ResultIsBessel | openlibm/src/e_jn.c:205-209 | for any solution of the three-term recurrence with ratio t and the given J(0), J(1), not both zero, the quotient is defined and is J(n) |
| Jn.Forward | openlibm/src/e_jn.c:109-115 | the forward recurrence computes J(n) |
| Semaphore.NoStuckWaiter | pthread/rthread_sem.c:64-107 | in every reachable state with the lock free, while a thread sleeps un-signalled value, read as an unsigned count, is at most the number of signalled threads that have not run |
| Semaphore.SomebodyWillTake | pthread/rthread_sem.c:64-107 | so a value other than 0 with all waiters asleep is unreachable |
| Semaphore.SignalledTakes | pthread/rthread_sem.c:73-86 | such a thread, run by itself, takes a unit and returns 0 |
| Semaphore.WaitResult | pthread/rthread_sem.c:64-87 | over a whole wait call, whatever the others do: ETIMEDOUT exactly if the sleep timed out, EINTR only if it was interrupted and cancelled |
| Semaphore.BoundReturns | pthread/rthread_sem.c:75-86 | from a timeout, a cancellation or the end of the loop on, the thread does not sleep again and returns that result, in every run |
| Semaphore.JudgeExactly | pthread/rthread_sem.c:78-81 | which results end the loop, and which do only with a unit |
| Semaphore.TryNeverSleeps | pthread/rthread_sem.c:65-69 | a call that only tries never enters the wait loop and returns 0 or EAGAIN |
| Semaphore.Conservation | pthread/rthread_sem.c:65-101 | with the lock free, initial count plus posts minus successful waits is value, read as an unsigned count, plus 2^32 for each time it wrapped to 0; without that term if and only if it is below 2^32 |
| Semaphore.ValueExact | pthread/rthread_sem.c:65-101 | the int itself is initial count plus posts minus successful waits if and only if that is below 2^31, and negative exactly when that is at least 2^31 modulo 2^32 |
| Semaphore.OverflowExactly | pthread/rthread_sem.c:101 | the signed increment leaves the range of int exactly when the units there are 2^31 - 1 modulo 2^32 |
| Semaphore.InitCanBeNegative | pthread/rthread_sem.c:119-166 | every unsigned count is accepted, and the value is negative at once exactly from 2^31 on |
| Semaphore.PostCanOverflow | pthread/rthread_sem.c:101 | from any initial state one post turns 2^31 - 1 units into -2^31, and 2^32 - 1 units into none |
| Semaphore.DestroyTestExact | pthread/rthread_sem.c:184-190 | waitcount is the number of threads in the wait loop, so EBUSY is exact |
| Semaphore.MutualExclusion | pthread/rthread_sem.c:64-107 | at most one thread holds the lock |
| Semaphore.StepInv | pthread/rthread_sem.c:54-109 | every step of every thread keeps the invariant |
| Semaphore.BeginIsRun | pthread/rthread_sem.c:64-86 | _sem_wait up to sleeping or returning, as a run |
| Semaphore.ResumeIsRun | pthread/rthread_sem.c:73-86 | from waking up to sleeping again or returning, as a run |
| Semaphore.PostIsRun | pthread/rthread_sem.c:100-108 | _sem_post as a run |
| Semaphore.Semaphore.BeginWait | pthread/rthread_sem.c:64-73 | the code: takes a unit, fails with EAGAIN, or enlists and sleeps |
| Semaphore.Semaphore.ResumeWait | pthread/rthread_sem.c:73-87 | the code after waking up: sleeps again exactly without a unit after a signal or an uncancelled interruption, takes a unit exactly when it returns 0, and returns every other result as it came |
| Semaphore.Semaphore.Post | pthread/rthread_sem.c:100-108 | the code of post; 1 exactly if somebody is in the wait loop |
| Semaphore.Semaphore.GetValue | pthread/rthread_sem.c:214-216 | sem_getvalue reports the number of units if and only if it is below 2^31, and is negative exactly past that modulo 2^32 |
| Semaphore.Semaphore.Destroy | pthread/rthread_sem.c:184-198 | called at any moment, locked or not: busy exactly while somebody is in the wait loop |
| Mutex.MutualExclusion | pthread/rthread_mutex.c:93-296 | at most one thread is inside, in every reachable state and under any use |
| Mutex.LockWordExact | pthread/rthread_mutex.c:285-293 | the word is UNLOCKED exactly when nobody is inside, also between the subtraction and the store |
| Mutex.OwnerIsInside | pthread/rthread_mutex.c:99-128 | the owner is inside and has locked count + 1 times; count is 0 at every release |
| Mutex.RefinesLock | pthread/rthread_mutex.c:93-296 | each step leaves an abstract lock alone, takes it when free, or gives it back by its holder |
| Mutex.LockReturn | pthread/rthread_mutex.c:93-214 | a lock call returns 0 exactly when it leaves the thread one level deeper inside |
| Mutex.LockResult | pthread/rthread_mutex.c:93-214 | what a lock call returns, over the whole call and whatever the others do, by kind, trywait, timeout and the levels the caller already had: EAGAIN, EDEADLK, EBUSY, ETIMEDOUT and 0, each exactly when |
| Mutex.TrylockNeverWaits | pthread/rthread_mutex.c:99-168 | a trylock never waits, in any run |
| Mutex.BusyOutcome | pthread/rthread_mutex.c:106-131 | the next step of a call that found the mutex locked, by the levels the caller already had |
| Mutex.CasOutcome | pthread/rthread_mutex.c:99 | the compare-and-exchange succeeds exactly if nobody is inside |
| Mutex.TimedOutReturns | pthread/rthread_mutex.c:199-202 | a sleeper that has timed out returns ETIMEDOUT at its next step |
| Mutex.UnlockOutcome | pthread/rthread_mutex.c:256-283 | what the first check makes of unlocking, by kind and depth: a thread that is not inside changes nothing and gets EPERM or reads the owner again |
| Mutex.MisuseOutcome | pthread/rthread_mutex.c:269-273 | the second read returns 0 exactly for a NORMAL mutex that at this later moment nobody has finished locking, and aborts otherwise |
| Mutex.UnlockResult | pthread/rthread_mutex.c:256-295 | what an unlock call returns and does, over the whole call: EPERM or an abort exactly for a thread that is not inside, otherwise 0, one level less, and the mutex given back with the last one |
| Mutex.ForgetsExactly | pthread/rthread_mutex.c:187-207 | the steps after which a sleeper has nobody to wake it: going to sleep when the word is no longer CONTENDED and nobody is about to signal or set it, and a signal taken by a self-deadlocked thread |
| Mutex.SleepsMarked | pthread/rthread_mutex.c:187-207 | whoever goes to sleep has found or made the word CONTENDED |
| Mutex.WakeupLost | pthread/rthread_mutex.c:187-199 | a run, for every kind and number of threads from two on, after which one sleeps, the mutex is free and everybody else is outside |
| Mutex.LosesExactly | pthread/rthread_mutex.c:187-199 | a sleeper can be forgotten if and only if there are at least two threads |
| Mutex.ForgottenForever | pthread/rthread_mutex.c:187-207 | while all threads but one sleep, that one wakes nobody, whatever it does |
| Mutex.StepInv | pthread/rthread_mutex.c:93-296 | every atomic access keeps the invariant |
| Mutex.Mutex.CompareExchange | pthread/rthread_mutex.c:99-104 | the access |
| Mutex.Mutex.AlreadyOwner | pthread/rthread_mutex.c:106-131 | relocking, by kind and by the levels the caller already had: EBUSY, EDEADLK, EAGAIN past INT_MAX, one level deeper, or abort, each exactly when |
| Mutex.Mutex.TakeContended | pthread/rthread_mutex.c:187-213 | the exchange |
| Mutex.Mutex.AfterSleep | pthread/rthread_mutex.c:200-202 | ETIMEDOUT exactly after a timeout, else on to the exchange |
| Mutex.Mutex.BecomeOwner | pthread/rthread_mutex.c:102 | the store of the owner finds count at 0 |
| Mutex.Mutex.UnlockCheck | pthread/rthread_mutex.c:256-283 | the first read of the owner: EPERM, one level less, or on to the next access |
| Mutex.Mutex.UnlockRecheck | pthread/rthread_mutex.c:269-273 | the second read of the owner |
| Mutex.Mutex.GiveUpOwnership | pthread/rthread_mutex.c:285 | the store that clears the owner |
| Mutex.Mutex.Subtract | pthread/rthread_mutex.c:288 | the subtraction reports waiters exactly if the store comes next |
| Mutex.Mutex.StoreUnlocked | pthread/rthread_mutex.c:289 | the store |
| Cond.WaitersAreAsleep | pthread/rthread_cond.c:101-109 | a signaller finds every thread that has released its mutex and has not been woken in the wait set |
| Cond.SignalWakesOne | pthread/rthread_cond.c:183-185 | if there is one, the signal wakes one |
| Cond.BroadcastWakesAll | pthread/rthread_cond.c:209-211 | a broadcast leaves nobody blocked |
| Cond.SignalLostExactly | pthread/rthread_cond.c:107-116 | a signal makes a blocked waiter bound to return if and only if somebody is asleep in the wait set; every other thread in the wait is awake from an interruption or already bound to return |
| Cond.InterruptedWaiterMissesSignal | pthread/rthread_cond.c:107-116 | a run with two waiters and two signals: the second frees nobody, and the waiter it missed goes back to sleep |
| Cond.ReleasedExactly | pthread/rthread_cond.c:97-105 | while a thread waits its mutex is released exactly if it had been locked once |
| Cond.LeavingLeaves | pthread/rthread_cond.c:115-122 | from being signalled on, a waiter does not go back to sleep in any run until it has returned, whatever its cancel state |
| Cond.WaitResult | pthread/rthread_cond.c:107-133 | over a whole wait call, whatever the others do: ETIMEDOUT exactly if the sleep timed out, and 0 otherwise, also when cancelled |
| Cond.RecursiveMutexStaysLocked | pthread/rthread_cond.c:97-105 | a run with a mutex locked twice |
| Cond.WaitKeepsCount | pthread/rthread_cond.c:97-129 | over any whole wait call, whatever the others do: on return the caller holds the mutex with the count it called with |
| Cond.RelockReturnsExactly | pthread/rthread_cond.c:124-125 | a thread taking the mutex back can still return in some run if and only if the mutex is free or its own, or its holder is outside or past line 125 |
| Cond.JamsExactly | pthread/rthread_cond.c:103-125 | for either kind of mutex, a state in which it cannot is reached by a run without unasked wake-ups if and only if there are at least two threads |
| Cond.SignalThenWaitJams | pthread/rthread_cond.c:103-125 | such a run: one thread waits, the other signals, unlocks, locks and waits; with two threads nothing is enabled at its end |
| Cond.RefinesMonitor | pthread/rthread_cond.c:101-125 | each step is a step of a monitor in which giving back one level of the mutex and blocking are one, a signal takes one member off the waiting set unless it is empty, and only taking, releasing and waiting change holder and count |
| Cond.ResumeIsRun | pthread/rthread_cond.c:107-129 | the code after waking up, as a run |
| Cond.WaitIsRun | pthread/rthread_cond.c:97-109 | the code up to sleeping, as a run |
| Cond.Condition.BeginWait | pthread/rthread_cond.c:97-109 | the code, with the single unlock |
| Cond.Condition.ResumeWait | pthread/rthread_cond.c:107-133 | the code: sleeps again exactly for an uncancelled interruption, returns ETIMEDOUT exactly for a timeout, with the mutex held and its count restored |
| Barrier.Rounds | pthread/rthread_barrier.c:114-140 | for any number of threads: nobody has left round g unless exactly threshold threads entered it, and each completed round has exactly one serial thread |
| Barrier.LeavesAfterCompletion | pthread/rthread_barrier.c:123-129 | the step out of a round comes after its completion |
| Barrier.Accounting | pthread/rthread_barrier.c:114-131 | with at most threshold participants, in counts the waiters of the current round, out those of the previous one, and there are no others |
| Barrier.OutIsFree | pthread/rthread_barrier.c:115 | the store to out never overwrites a non-zero count |
| Barrier.OutIsSafeExactly | pthread/rthread_barrier.c:114-117 | a non-zero out can be overwritten if and only if the threshold is at least two and below the number of threads, with and without wake-ups for no reason |
| Barrier.DestroyTestExact | pthread/rthread_barrier.c:83-93 | destroy succeeds only when nobody is inside |
| Barrier.SignalChain | pthread/rthread_barrier.c:114-131 | with waiters woken in order, while a waiter of a completed round sleeps another one is awake |
| Barrier.Drains | pthread/rthread_barrier.c:128-131 | running the waiters that are awake releases all of them, in out steps |
| Barrier.OrderMattersExactly | pthread/rthread_barrier.c:118-131 | with at most threshold participants and no wake-ups without a signal, a run that breaks the chain exists if and only if there are exactly threshold and at least three |
| Barrier.WithoutFifoAWaiterIsStuck | pthread/rthread_barrier.c:118-131 | for every such number, a run at whose end everybody sleeps, some in a completed round |
| Barrier.OnlyWakeRemains | pthread/rthread_barrier.c:123-127 | from there nothing can happen but a wake-up without a signal |
| Barrier.ChainSafe | pthread/rthread_barrier.c:118-131 | in all other cases the chain holds in every order, wake-ups without a signal included |
| Barrier.StepInv | pthread/rthread_barrier.c:110-135 | every step keeps the history of every round |
| Barrier.Barrier.Wait | pthread/rthread_barrier.c:110-127 | the code up to blocking or returning as the serial thread |
| Barrier.Barrier.Resume | pthread/rthread_barrier.c:128-142 | the code after waking up |
| Barrier.Barrier.Destroy | pthread/rthread_barrier.c:78-93 | with at most threshold participants busy exactly while somebody is inside; with any number, not busy only if nobody waits in the current round |
| ThreadGc.RetiredOnce | pthread/rthread_thread.c:132-156 | a thread gets onto the gc list at most once and is destroyed at most once, only after THREAD_DONE |
| ThreadGc.CallsSeeLiveThreads | pthread/rthread_thread.c:283-319 | no join or detach call looks at a destroyed thread |
| ThreadGc.JoinReturnsExitValue | pthread/rthread_thread.c:285-297 | a successful join delivers the exit value |
| ThreadGc.JoinResult | pthread/rthread_thread.c:283-297 | over a whole join call, whatever the others do: EINVAL exactly for a thread that was detached when it began, the error of the wait exactly if the wait failed, otherwise the exit value, the thread being put on the gc list by this call |
| ThreadGc.DetachResult | pthread/rthread_thread.c:309-322 | over a whole detach call: EINVAL exactly for a thread that was detached when it began; otherwise the thread is marked, or has exited and is put on the list by this call |
| ThreadGc.OnlyJoinableAreWaitedFor | pthread/rthread_thread.c:283-285 | no join waits for a detached thread |
| ThreadGc.ExitValueIsKept | pthread/rthread_internal.c:155 | the exit value is set once |
| ThreadGc.ReapableExactly | pthread/rthread_thread.c:147-155 | a thread on the list can be reaped exactly if it was not detached |
| ThreadGc.DetachedIsNeverReaped | pthread/rthread_thread.c:148-150 | one that exited detached stays on the list in every continuation |
| ThreadGc.DetachedExits | pthread/rthread_thread.c:147-150 | a run to there from any initial state, for any thread created detached |
| ThreadGc.DestroyedUnderExactly | pthread/rthread_thread.c:147-155 | for each of an exiting thread's last two uses of its record, the post and phal_thread_exit: a run in which the record is destroyed before it exists if and only if the use is still to come, the thread is neither initial nor detached, and its one call is not over without having freed the record nor, for the post, a join |
| ThreadGc.PostsAfterDestruction | pthread/rthread_thread.c:151-154 | such a run for the post, from any initial state, for any thread but the initial one that is not detached |
| ThreadGc.StepInv | pthread/rthread_thread.c:132-322 | every step keeps the invariant |
| ThreadGc.ThreadTable.Reaper | pthread/rthread_thread.c:224-255 | the restarting scan terminates leaving exactly the entries that are not done, in order, and destroys each done one once, save the initial thread |
| ThreadGc.ThreadTable.ReapAt | pthread/rthread_thread.c:234-251 | one removal |
| ThreadGc.ThreadTable.Release | pthread/rthread_thread.c:147-155 | the code of release: onto the list if detached, else done and posted |
| ThreadGc.ThreadTable.Detach | pthread/rthread_thread.c:309-319 | the code of detach, EINVAL exactly for detached threads |
| ThreadGc.ThreadTable.JoinCheck | pthread/rthread_thread.c:277-284 | EDEADLK exactly for the caller itself, EINVAL exactly for null and for a detached thread, and nothing changes but the call |
| ThreadGc.ThreadTable.JoinAfterWait | pthread/rthread_thread.c:285-296 | after the wait, join delivers the exit value and puts the thread on the list |

## Left out

- SqrtDouble.Sqrt: NaN payloads and exception flags are not modelled, here or in the other routines of openlibm.
- Fmod.Fmod: `x *= one` and `(x*y)/(x*y)` only raise flags or make NaNs, and stand for their result.
- RemainderDouble.RemainderWords: for infinite p the result x is returned at once; the comparison with p_half, infinite there, is not carried out.
- FloatArith.RoundExact: `Round` has no upper exponent bound; every use in remainder is below the largest finite number.
- PowSign.Pow: stops at line 192; what the general case computes (`Power`) is not modelled, only its sign and whether it is a NaN.
- Jn.JnBackward: rounding, the tiny and huge arguments (lines 88-107 and 117-131), the reflection of negative n and x, and the logarithm that chooses between the two loops (a parameter here).
- Jn.StopsClose: the limit of the continued fraction is stated through its deeper convergents.
- Semaphore.StepInv: shared semaphores (ENOSYS), null pointers and allocation; fewer than 2^31 - 1 threads, so that waitcount does not overflow.
- Semaphore.Semaphore.Post: freeing the structure while the last post is still unlocking it.
- Mutex.StepInv: progress beyond the lost wake-ups is not claimed; lazy initialisation of a static mutex, and calls from within pthread_cond_wait.
- Cond.StepInv: wait is called by a holder of the mutex, as POSIX demands; progress beyond line 124 is not claimed.
- Barrier.StepInv: failures of the mutex and condition calls, and the cancel state; fewer than 2^31 - 1 threads.
- Barrier.Drains: fairness of the scheduler; it says that the run exists from every state.
- ThreadGc.StepInv: the flags word is two booleans; the list of live threads; a second join or detach call on the same thread; the atomicity of the spin locks is assumed.
- ThreadGc.ThreadTable.Reaper: nobody else changes the list or the flags during the call; the step machine lets several reapers interleave.
- pthread/rthread_rwlock.c, the attribute functions, pthread/rthread_tls.c, pthread/rthread_once.c and pthread/rthread_spin_lock.c: stubs, or easy members only.
- the rest of openlibm: error bounds over floating point, and e_sqrtl.c, which needs rounding modes that are not switched.
