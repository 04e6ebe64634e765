# ADS-L codec and MVP conflict resolution, modelled in Dafny

This project models three parts of the BlueSky ADS-L plugins:

- **The ADS-L field codec** (`plugins/ADSL.py`). Altitude, ground speed and vertical speed are sent as a 2-bit exponent and a 6- or 12-bit base. The encoder takes the largest exponent whose threshold `2^e·2^B − 2^B` the normalised value exceeds. It computes the base `(m + 2^B)/2^e − 2^B`, carries into the next exponent when that base is exactly `2^B`, and rounds half to even. The decoder is the closed form `2^e·(2^B + b) − 2^B`, scaled and offset. Ground track is a uniform 512-step quantizer. A type name is a drone when it is in an upper-cased list.
- **The MVP resolver** (`plugins/vo110.py`). This covers:
  - validating a priority code;
  - the priority rules that split one pair's resolution vector between the two aircraft;
  - the Modified Voltage Potential computation for one pair: approach geometry, the head-on guard, the grazing correction, and the horizontal and vertical changes;
  - `resolve`, which sums the per-pair results into one velocity change and one time to solve vertically per aircraft, then turns them into track, ground-speed, vertical-speed and altitude commands.
- **Traffic helpers** (`plugins/TrafADSL.py`). `id2idx` looks up one callsign or a list of them. `seconds_to_minutes` splits seconds into zero-padded minutes and seconds.

Python floats are modelled as exact `real`s and Python integers as `int`. Python's `round` is modelled as round-half-to-even, and float `%` and `//` as floored operations (`PyBuiltins`). `sqrt`, `sin`, `cos`, `arcsin` and `arctan2` are arbitrary functions passed in through a `Math` record.

Modules:

| module | models |
|---|---|
| `Wrappers` | `Option` |
| `PyBuiltins` | `round`, `abs`, float `//` and `%`, ASCII `str.upper` |
| `ExpBase` | the exponent/base scheme the three ADS-L codecs share, over a base range `P = 2^B` |
| `Adsl` | the ADS-L codecs and `is_drone` |
| `Geometry` | 3-vectors, `np.sign`, `max`/`min`, the transcendental functions as parameters |
| `Vo110Prio` | `setprio` and `applyprio` |
| `Vo110Mvp` | `MVP` |
| `Vo110Resolve` | `resolve` |
| `TrafAdsl` | `id2idx`, `seconds_to_minutes` |

Behaviour of the code worth noting:

- **The codec carry is tested before rounding.** `base == 2**base_bit` is checked on the unrounded base, so a base just under `2^B` rounds to `2^B` and gets no carry (`EncodeAltRoundsUpWithoutCarry`).
- **A non-positive normalised value has no exponent.** When it exceeds no threshold, the comprehension is empty. `encode_alt` and `encode_vs` then raise `IndexError`, and `encode_gs` reads an unset `e_star`. The model returns `None`.
- **`resolve` takes each pair's resolution from the VO105 routine; it does not call `MVP`.** The per-pair results are therefore inputs to `Resolve`. `MVP` is modelled on its own.
- **The `idx1 > -1 and idx2 > -1` guard in `resolve` is always true.** `list.index` raises instead of returning −1, so every pair is processed.
- **An extra altitude override.** The altitude selection keeps the extrapolated altitude when the vertical-speed sign `signdvs` is 0 or agrees with `signalt`, and takes the autopilot's selected altitude otherwise (lines 335-338). It then keeps the extrapolated altitude anyway for every aircraft in conflict within the look-ahead that has a non-zero vertical change (lines 343-344).

## Model

| member | source | states |
|---|---|---|
| PyBuiltins.Round | plugins/ADSL.py:161 | `round(x)` is within 0.5 of `x`, and a tie goes to the even integer |
| PyBuiltins.FloorDiv | plugins/TrafADSL.py:336 | `x // m` is the integer `q` with `q·m <= x < (q+1)·m` |
| PyBuiltins.FloorMod | plugins/vo110.py:306 | `x % m` lies in `[0, m)` and is `x − (x // m)·m` |
| PyBuiltins.Upper | plugins/ADSL.py:127 | upper-casing keeps the length, leaves no lower-case letter, turns each lower-case letter into its capital and keeps every other character |
| PyBuiltins.UpperIdempotent | plugins/ADSL.py:127 | upper-casing twice is upper-casing once |
| ExpBase.ThresholdsOf | plugins/ADSL.py:151 | the thresholds are 0, P, 3P, 7P (and 15P one band up) |
| ExpBase.ExceededOfExpList | plugins/ADSL.py:151-153 | the comprehension over `exp_list` keeps [], [0], [0, 1], [0, 1, 2] or [0, 1, 2, 3], by the band of m |
| ExpBase.LastExceeded | plugins/ADSL.py:151-153 | `[...][-1]`: none exactly when m exceeds no threshold; otherwise an exponent whose threshold m exceeds, and the largest such |
| ExpBase.ChooseExponent | plugins/ADSL.py:151-153 | no exponent when m <= 0; otherwise the exponent e <= 3 with T(e) < m <= T(e+1) |
| ExpBase.ChooseExponentIsLastExceeded | plugins/ADSL.py:151-153 | the banded choice equals the last exponent the list comprehension keeps |
| ExpBase.ChooseExponentUnique | plugins/ADSL.py:151-153 | any e whose band holds m is the chosen exponent |
| ExpBase.Encode | plugins/ADSL.py:151-161 | the encoder fails exactly when m <= 0; otherwise the exponent is at most 4 and the base non-negative |
| ExpBase.EncodeShape | plugins/ADSL.py:155-161 | exponent 4 only by the carry, with base 0; below exponent 3 the base is at most P |
| ExpBase.EncodeError | plugins/ADSL.py:142-161 | decoding the encoded pair gives a magnitude within half a step 2^e/2 of the input |
| ExpBase.EncodeAtThreshold | plugins/ADSL.py:155-159 | at a threshold T(k) the base is exactly P and the carry gives (k, 0) |
| ExpBase.RoundsUpWithoutCarry | plugins/ADSL.py:155-161 | an unrounded base just under P rounds to P without the carry, so the pair does not fit the field |
| ExpBase.EncodeOverflowsAtTop | plugins/ADSL.py:151-161 | above 15P the exponent is 3 and the base no longer fits |
| ExpBase.EncodeMagnitude | plugins/ADSL.py:142-161 | encoding the decoded value of a pair with positive value and base below P (at exponent 3, any base but P) returns that pair |
| ExpBase.Quantize | plugins/ADSL.py:163-166 | encode-then-decode fails exactly for m <= 0; otherwise it gives a non-negative magnitude within half a step 2^e/2 of m |
| ExpBase.QuantizeMagnitude | plugins/ADSL.py:142-161 | a value the encoder can produce encodes and decodes to itself |
| ExpBase.QuantizeIdempotent | plugins/ADSL.py:163-166 | for a positive quantized value, encode-then-decode applied twice is applied once (a value that quantizes to 0 cannot be re-encoded) |
| ExpBase.QuantizePositive | plugins/ADSL.py:163-166 | a magnitude above 0.5 is recovered as a positive value |
| ExpBase.MagnitudeLinear | plugins/ADSL.py:142 | the decoder formula band by band: b, P+2b, 3P+4b, 7P+8b, 15P+16b |
| ExpBase.Unpack | plugins/ADSL.py:139-140 | the word's fields: the exponent from the two bits above the base and the base from the low bits, both fitting |
| ExpBase.UnpackPack | plugins/ADSL.py:139-140 | unpacking a packed fitting pair gives it back |
| ExpBase.PackUnpack | plugins/ADSL.py:139-140 | packing an unpacked word in range gives it back |
| ExpBase.UnpackIgnoresHigh | plugins/ADSL.py:139-140 | bits above the exponent are ignored |
| ExpBase.MagnitudeIncreasing | plugins/ADSL.py:142 | decoding is strictly increasing over packed words |
| Adsl.RangesArePowers | plugins/ADSL.py:133-136 | the base ranges are 2^12 and 2^6 |
| Adsl.DecodeAlt | plugins/ADSL.py:132-144 | every word decodes to an altitude in [−320, 61112] m |
| Adsl.DecodeAltOfPacked | plugins/ADSL.py:139-142 | a packed (e, b) decodes to the formula value less 320 |
| Adsl.DecodeAltIgnoresHigh | plugins/ADSL.py:139-140 | only the low 14 bits are read |
| Adsl.DecodeAltIncreasing | plugins/ADSL.py:139-142 | distinct 14-bit words decode to distinct, increasing altitudes |
| Adsl.EncodeAlt | plugins/ADSL.py:146-161 | encoding fails exactly when alt + 320 <= 0 |
| Adsl.EncodeDecodeAlt | plugins/ADSL.py:163-166 | the recovered altitude exists exactly when alt + 320 > 0 and is never below −320 m |
| Adsl.EncodeDecodeAltError | plugins/ADSL.py:163-166 | the recovered altitude is within 2^e/2 m of the input |
| Adsl.EncodeDecodeAltIdempotent | plugins/ADSL.py:163-166 | for an altitude above −319.5 m, re-encoding the recovered altitude reproduces it (an altitude that quantizes to −320 m cannot be re-encoded) |
| Adsl.EncodeAltCarries | plugins/ADSL.py:157-159 | an altitude at threshold T(k) − 320 encodes as (k, 0) (the first is 3776 m) |
| Adsl.EncodeAltRoundsUpWithoutCarry | plugins/ADSL.py:155-161 | 3775.75 m encodes as (0, 4096), which does not fit the 12-bit base, though its value equals (1, 0) |
| Adsl.EncodeAltOverflows | plugins/ADSL.py:151-161 | above 61120 m the base exceeds 4095 |
| Adsl.DecodeGs | plugins/ADSL.py:169-181 | the fields fit, the value is the formula's and lies in [0, 238] m/s |
| Adsl.DecodeGsOfPacked | plugins/ADSL.py:176-181 | a packed (e, b) decodes to (formula value, e, b) |
| Adsl.EncodeGs | plugins/ADSL.py:183-205 | encoding fails exactly for a zero speed |
| Adsl.EncodeGsNegative | plugins/ADSL.py:184 | every negative speed is sent as (0, 1) and recovered as 0.25 m/s |
| Adsl.EncodeDecodeGsSingle | plugins/ADSL.py:207-210 | the recovered ground speed exists exactly for a non-zero speed and is never negative |
| Adsl.EncodeDecodeGsError | plugins/ADSL.py:207-210 | a positive speed is recovered within 2^e·0.125 m/s |
| Adsl.DecodeVs | plugins/ADSL.py:234-252 | the fields fit, the value lies in [−119, 119] m/s, is negative only with the sign bit set, and is the signed formula value |
| Adsl.DecodeVsOfPacked | plugins/ADSL.py:243-250 | a packed (s, e, b) decodes to the signed formula value |
| Adsl.EncodeVs | plugins/ADSL.py:254-272 | encoding fails exactly for zero; the sign is 1 exactly for negative speeds |
| Adsl.EncodeVsOdd | plugins/ADSL.py:255-256 | negating a speed flips the sign and keeps the fields |
| Adsl.EncodeVsError | plugins/ADSL.py:247-272 | a nonzero speed is recovered with its sign within 2^e·0.0625 m/s |
| Adsl.EncodeGroundTrack | plugins/ADSL.py:216-219 | None passes through; any track encodes into [0, 511] |
| Adsl.DecodeGroundTrack | plugins/ADSL.py:221-224 | None passes through |
| Adsl.EncodeGroundTrackPeriodic | plugins/ADSL.py:219 | tracks 360 degrees apart encode alike |
| Adsl.EncodeDecodeGroundTrack | plugins/ADSL.py:216-224 | encode(decode(k)) == k for 0 <= k < 512 |
| Adsl.EncodeDecodeTrkSingle | plugins/ADSL.py:226-228 | None passes through, and every recovered track lies in [0, 360) |
| Adsl.EncodeDecodeTrkError | plugins/ADSL.py:226-228 | a track below the last half step is recovered within 0.3515625 degrees |
| Adsl.EncodeDecodeTrkWraps | plugins/ADSL.py:226-228 | a track in the last half step below 360 is recovered as 0 |
| Adsl.DroneTypes | plugins/ADSL.py:126-127 | the upper-cased list is exactly M600, AMZN, MNET, PHAN4, M100, M200, MAVIC, HORSEFLY |
| Adsl.IsDrone | plugins/ADSL.py:125-129 | a type is a drone exactly when it equals one of the eight listed names upper-cased |
| Adsl.IsDroneCaseSensitive | plugins/ADSL.py:125-129 | "AMZN" is a drone, "Amzn" and "amzn" are not |
| Adsl.IsDroneUpper | plugins/ADSL.py:125-129 | only upper-case names can be drones |
| Adsl.IsDroneListed | plugins/ADSL.py:125-129 | every listed name, upper-cased, is a drone |
| Geometry.Sign | plugins/vo110.py:336-337 | `np.sign` is ±1 or 0, with the sign of its argument |
| Vo110Prio.SetPrio | plugins/vo110.py:41-57 | no flag shows the usage; with a flag a code outside the five options is rejected, otherwise flag and code are passed on unchanged |
| Vo110Prio.SetPrioNeedsCode | plugins/vo110.py:54-56 | the empty default code and lower-case codes are rejected, not defaulted |
| Vo110Prio.ApplyPrio | plugins/vo110.py:59-124 | each aircraft keeps its delta or moves by the written-back vector (aircraft 1 against it, aircraft 2 along it), whose horizontal part is unchanged; an unknown code changes nothing |
| Vo110Prio.ApplyPrioVertical | plugins/vo110.py:62-122 | the vertical part written back: halved by FF1/FF2, zeroed by LAY1/LAY2, zeroed by FF3 one-sided and halved otherwise |
| Vo110Prio.ApplyPrioFF1 | plugins/vo110.py:62-66 | FF1: dv1 − (x, y, z/2) and dv2 + (x, y, z/2) |
| Vo110Prio.CruisingHasPriority | plugins/vo110.py:69-109 | FF2/LAY1: when one aircraft cruises and the other maneuvers only the maneuvering one moves, otherwise both |
| Vo110Prio.ManeuveringHasPriority | plugins/vo110.py:83-122 | FF3/LAY2: the cruising one moves, otherwise both |
| Vo110Prio.BoundarySpeedBothMove | plugins/vo110.py:74-80 | at |vs| exactly 0.1 neither rule applies and both move |
| Vo110Prio.ApplyPrioMirror | plugins/vo110.py:59-124 | swapping the aircraft (and negating the vector) swaps the results |
| Vo110Mvp.RpzM | plugins/vo110.py:357 | the larger scaled radius |
| Vo110Mvp.HpzM | plugins/vo110.py:358 | the larger scaled half height |
| Vo110Mvp.Guard | plugins/vo110.py:383-390 | head-on: dabsH becomes 0.001 and the miss vector is exactly (drel.y, −drel.x)·0.001/dist, perpendicular to drel; otherwise the predicted miss vector and dabsH are kept; dabsH is at least 0.001 either way |
| Vo110Mvp.HeadOnMissSide | plugins/vo110.py:385-390 | the head-on miss vector lies on the right of the line of sight (positive cross product with drel), so it is neither the mirrored nor the zero vector |
| Vo110Mvp.HeadOnMissLength | plugins/vo110.py:385-390 | with sin² + cos² = 1 the head-on miss vector has length exactly 0.001 |
| Vo110Mvp.Gain | plugins/vo110.py:394-402 | outside the grazing case the gain is the intrusion rpz_m − dabsH (the unguarded dabsH) |
| Vo110Mvp.ErratumEnlargesGain | plugins/vo110.py:394-399 | in grazing geometry an erratum in (0, 1], as the real `cos` of an `arcsin` difference gives, makes the gain at least rpz_m − dabsH |
| Vo110Mvp.Steer | plugins/vo110.py:398-402 | the horizontal change is parallel to the miss vector, along it for positive gain, against it for negative, zero for zero gain |
| Vo110Mvp.SteerLength | plugins/vo110.py:398-402 | with dabsH the exact length of the miss vector, the change has |dv|²·tcpa² = gain² |
| Vo110Mvp.KeptSteerCloses | plugins/vo110.py:392-402 | for the predicted miss vector kept by the guard and no grazing, |dvH|²·tcpa² = (rpz_m − dabsH)² |
| Vo110Mvp.SteerCloses | plugins/vo110.py:377-402 | outside head-on and grazing geometry, |dvH|²·tcpa² = (rpz_m − dabsH)²: the change closes exactly the intrusion over |tcpa| |
| Vo110Mvp.VerticalTiming | plugins/vo110.py:406-418 | iV and tsolV in each case: the vertical closing time with hpz, or tLOS with the overlap, when within the look-ahead; (hpz, tLOS) whenever the unclamped time exceeds the look-ahead |
| Vo110Mvp.VerticalRate | plugins/vo110.py:420-423 | dv3 has size iV/tsolV; it is iV/tsolV without vertical closing speed and −(iV/tsolV)·sign(vrel.z) with one |
| Vo110Mvp.VerticalOpposes | plugins/vo110.py:406-423 | with hpz >= 0 and a positive time to solve, dv3·vrel.z <= 0 |
| Vo110Mvp.Mvp | plugins/vo110.py:353-439 | the horizontal change is parallel to the guarded miss vector; tsolV is within the look-ahead or equals tLOS |
| Vo110Mvp.MvpVerticalOpposes | plugins/vo110.py:353-439 | the vertical part of MVP's change opposes the relative vertical speed |
| Vo110Resolve.SplitGivesWay | plugins/vo110.py:268-274 | the ownship keeps its row or gives way by the written-back vector, whose horizontal part is the pair's; without priority it always gives way, with the vertical part halved |
| Vo110Resolve.NewRow | plugins/vo110.py:268-283 | an aircraft that does not resolve gets a zero row |
| Vo110Resolve.Step | plugins/vo110.py:257-283 | one pair changes only the ownship's row and time; the time becomes the smaller of the old one and the pair's |
| Vo110Resolve.Accumulate | plugins/vo110.py:257-283 | the fold over the pairs keeps one row and one time per aircraft |
| Vo110Resolve.ResolvePairs | plugins/vo110.py:251-283 | the in-place loop over fresh arrays leaves exactly the fold's rows and times |
| Vo110Resolve.ResolveState | plugins/vo110.py:251-283 | the loop's arrays read back are the fold |
| Vo110Resolve.AccumulateTimeIsMinimum | plugins/vo110.py:254-266 | each aircraft's time is at most 1e9 and every pair time of its own pairs, and is one of them |
| Vo110Resolve.AccumulateUntouched | plugins/vo110.py:251-283 | an aircraft that is no pair's ownship keeps a zero change and 1e9 |
| Vo110Resolve.ResoOffStaysZero | plugins/vo110.py:281-283 | an aircraft with resolutions off ends with a zero change |
| Vo110Resolve.NoResoNeutralWithoutPrio | plugins/vo110.py:271-279 | without priority, a pair with an unavoided intruder leaves the rows unchanged |
| Vo110Resolve.CooperativeWithoutPrio | plugins/vo110.py:271-274 | without priority, an avoided intruder moves the ownship by −(x, y, z/2) |
| Vo110Resolve.NoResoIntrudersNeutral | plugins/vo110.py:257-283 | without priority, an ownship whose every intruder is unavoided ends with a zero change |
| Vo110Resolve.NoResoAddBackWithPrio | plugins/vo110.py:269-279 | with FF2, a cruising ownship against a maneuvering unavoided intruder is moved by +(x, y, z/2) |
| Vo110Resolve.ModeOf | plugins/vo110.py:300-320 | horizontal modes exactly when swresohoriz; SPD-only and HDG-only need exactly one of the two switches, both or neither give SPD + HDG; vertical-only needs swresovert without swresohoriz; otherwise combined |
| Vo110Resolve.Cap | plugins/vo110.py:325-328 | the capped value is at least the minimum, at most the maximum when min <= max, unchanged inside the range, the minimum below it and the maximum above it |
| Vo110Resolve.TrackOf | plugins/vo110.py:306 | the new track lies in [0, 360) |
| Vo110Resolve.NewPolar | plugins/vo110.py:289-320 | SPD-only keeps the track, HDG-only the speed, vertical-only both; horizontal modes keep the vertical speed, the others add dv.z; computed tracks lie in [0, 360) |
| Vo110Resolve.AsasAlt | plugins/vo110.py:335-350 | horizontal-only gives the selected altitude; an aircraft in conflict within the look-ahead with dv.z != 0 gets the extrapolated altitude; otherwise the extrapolated altitude when signdvs is 0 or equals signalt, else the selected one |
| Vo110Resolve.Finalize | plugins/vo110.py:289-351 | the commands: speeds within the envelope, untouched track and speed per mode, capped vertical speed, horizontal-only altitude = selected altitude |
| Vo110Resolve.Resolve | plugins/vo110.py:248-351 | the commands of every aircraft are Finalize of its accumulated change and time |
| TrafAdsl.FirstIndex | plugins/TrafADSL.py:68-71 | −1 exactly when absent, otherwise the first position of the callsign |
| TrafAdsl.LastIndexMap | plugins/TrafADSL.py:61 | the dictionary's keys are the callsigns, each mapped to its last position |
| TrafAdsl.Id2Idx | plugins/TrafADSL.py:56-71 | one index for one callsign, one index per callsign for a list |
| TrafAdsl.Id2IdxSingle | plugins/TrafADSL.py:63-71 | "#" or "*" give ntraf − 1; otherwise −1 exactly when the upper-cased callsign is absent, else its first position |
| TrafAdsl.Id2IdxMany | plugins/TrafADSL.py:58-62 | each entry is −1 exactly when the callsign, not upper-cased, is absent, else its last position |
| TrafAdsl.Id2IdxPathsDiffer | plugins/TrafADSL.py:56-71 | a duplicated callsign is found first alone and last in a list; a lower-case one alone but not in a list |
| TrafAdsl.Digits | plugins/TrafADSL.py:338 | decimal digits without leading zeros, one digit below 10 and at most two below 100 |
| TrafAdsl.DecimalValueOfDigits | plugins/TrafADSL.py:338 | the digits read back as the number |
| TrafAdsl.Pad2 | plugins/TrafADSL.py:338 | `'{:02d}'`: at least two characters, exactly two for 0..99, digits only for non-negatives, a leading minus for negatives |
| TrafAdsl.Pad2Value | plugins/TrafADSL.py:338 | a padded non-negative number reads back as itself |
| TrafAdsl.MinutesSeconds | plugins/TrafADSL.py:335-337 | minutes·60 + seconds = floor(input), with 0 <= seconds < 60, for negative inputs too |
| TrafAdsl.SecondsToMinutes | plugins/TrafADSL.py:335-338 | the seconds string has two characters; for a non-negative input the minutes string is at least two digits |
| TrafAdsl.SecondsToMinutesReadsBack | plugins/TrafADSL.py:335-338 | for a non-negative input the two strings read back as minutes and seconds adding up to floor(input) |

## Left out

- `create`/`update` of `plugins/ADSL.py`: Gaussian noise, the simulation clock and the host's per-aircraft arrays. The lat/lon noise, the km conversions and the stack commands are left out too.
- `decode_gs` and `decode_vs` are declared without `self`, so calling them on an instance raises `TypeError`. The model treats them as plain functions of the encoded word, as a call through the class (`ADSL.decode_gs(v)`) would.
- `encode_decode_gs` and `encode_decode_trk`: `np.vectorize` wrappers, element-wise applications of the modelled single-value functions.
- The VO105 routine of `plugins/vo110.py` (`resolve`'s per-pair call): it builds the velocity obstacle with shapely polygons. Its per-pair results `(dv_mvp, tsolV)` are inputs to `Vo110Resolve.Resolve`.
- `setprio`'s usage text and the base class's setter. The model returns which of the three outcomes happens and what is passed on.
- Floating point: every quantity is an exact real. The model does not capture rounding error, overflow, NaN or infinity. Where numpy would divide by zero, the model states a precondition instead (`MvpDefined`: `tcpa != 0`, a non-zero distance when head-on, a non-zero erratum, a non-zero time to solve).
- Vo110Mvp.SteerCloses: stated only for a square root that is exact at the miss vector and outside head-on and grazing geometry. With the erratum the gain depends on `cos` and `arcsin`, which are parameters here.
- Vo110Mvp.Mvp: `sqrt`, `sin`, `cos`, `arcsin` and `arctan2` are arbitrary functions. They have none of their real properties beyond what a lemma assumes explicitly.
- In-place aliasing: `applyprio` writes `dv_mvp[2]` back into the caller's array. This is modelled as a returned copy (`PrioSplit.mvp`), which `resolve` then uses just as the code does.
- The `ownship`/`intruder` traffic objects: the model reads only the arrays the resolver uses, and the intruder's vertical speeds sit in the same index range as the ownship's.
- `str.upper` is modelled for ASCII only; callsigns and type names are ASCII.
- TrafAdsl.Id2Idx: the list path's dictionary is modelled as a map built front to back, not as a hash table.
- plugins/TrafADSL.py's conflict-spawning and scenario-writing commands are left out (trigonometry, randomness, file output), as is the rest of the repository.
