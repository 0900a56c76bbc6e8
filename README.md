# Strong-lensing odds ratio: injection preparation and joint sampling

This project models the Python scripts that prepare and post-process strongly
lensed gravitational-wave injections:

- the detectability cut on a simulated catalogue of lensed events, the
  restriction of magnifications and time delays to the kept events, and the
  bookkeeping of keys when the catalogue is saved and reloaded, and in the
  label list built for the text file's header (`create_lensed_injections.py`);
- reading one injection and one of its images from a parameter table and
  printing the image's effective parameters. The arrival time is shifted by the
  time delay, the luminosity distance is divided by the square root of the
  absolute magnification, and the phase is shifted by the Morse phase
  (`read_injection_data.py`);
- fitting one density estimator per image on the full parameters and one on
  the effective parameters, sampling them into data frames, and the
  leave-one-out construction of composite samples in `joint_kde_analysis`.
  For each anchor image, the anchor's full sample is copied once per other
  image and its effective columns are overwritten by that image's effective
  sample (`helperfunctions.py`).

The modules are:

| module | file |
|---|---|
| `Wrappers` | `wrappers.dfy` |
| `Frames` | `frames.dfy` |
| `HelperFunctions` | `helperfunctions.dfy` |
| `LensedInjections` | `lensed_injections.dfy` |
| `Decimal` | `decimal.dfy` |
| `InjectionData` | `injection_data.dfy` |

What each module holds:

- `Wrappers` holds `Option`, `Result` and the Python exceptions the scripts can raise.
- `Frames` has two forms of a data frame. `Table` is the frame as a value. `Frame` is the object that column assignment updates in place.
- `HelperFunctions` models `build_kdes`, `kde_sample` and the nested loops of `joint_kde_analysis`. Each loop is a method proved against a function: the loops over estimator lists against functions on lists, the loops that copy and overwrite `Frame` objects against functions on tables.
- `LensedInjections` models the detectability cut, the kept magnifications and time delays, the keys of the saved archive, and the label list built for the header.
- `Decimal` covers `"%d" % i` and `int(text)`.
- `InjectionData` models the reader script: reading the fields of one line, lensing the source into an image, and what is printed.

How the model represents what it cannot compute:

- **Randomness.** KDE sampling is a parameter, `draw(kde, call, row, col)`. It gives the value in column `col` of row `row` of the `call`-th call to `sample` on the shared random state. The model therefore tracks which draw each composite column comes from, and the order in which the random state is consumed.
- **Square root and pi.** These are the parameters `sqrt` and `pi`. `IsSqrt(sqrt)` states what the model assumes of the square root.

Where the code and its own documentation differ, the model follows the code:

- **`joint_kde_analysis` returns nothing.** Its docstring (helperfunctions.py:116-117) promises `joint_kde, joint_kde_eff, joint_kde_15d`. The code builds the composite samples, discards them and returns nothing. The model returns the composites so that what they hold can be stated.

Errors are the Python exceptions the scripts raise:

- A missing column raises `KeyError`.
- Fewer than four posteriors raises `IndexError`.
- A sample whose width differs from the list of names raises `ValueError`.
- A line or image number that is not an integer raises `ValueError`. A missing field of the structured array raises `ValueError`. A line out of range raises `IndexError`.

## Model

| member | source | states |
|---|---|---|
| Frames.Select | injections/helperfunctions.py:78 | Ok exactly when every named column exists, otherwise KeyError; the result has exactly the named columns in the order asked for, the same height, and each column's values unchanged |
| Frames.Overwrite | injections/helperfunctions.py:145 | every named column takes the source's values, every other column keeps its values, and the column order and height are unchanged |
| Frames.Frame.Copy | injections/helperfunctions.py:143 | a new frame object holding exactly the given contents |
| Frames.Frame.AssignColumns | injections/helperfunctions.py:145 | the in-place assignment leaves the frame valid, with contents equal to `Overwrite` of its previous contents |
| HelperFunctions.Fit | injections/helperfunctions.py:77-82 | fitting succeeds exactly when the posterior has every named column, otherwise KeyError; the estimator has one dimension per name and is trained on exactly those columns |
| HelperFunctions.BuildKdes | injections/helperfunctions.py:56-83 | Ok exactly when there are at least four posteriors and each of the first four has all full and effective parameters; KeyError exactly when one of the first four given lacks a parameter; IndexError exactly when fewer than four are given and all have the parameters; on success four estimators of each kind, the i-th fitted on posterior i |
| HelperFunctions.KdeSample | injections/helperfunctions.py:85-104 | ValueError exactly when no rows are asked for or the number of names differs from the estimator's dimension; otherwise a valid frame whose columns are the names in order, with n rows, where column c of row r is draw c of row r of that call |
| HelperFunctions.OtherIndex | injections/helperfunctions.py:133-137 | the k-th other image is never the anchor, lies below it exactly when k does, and is k or k + 1 |
| HelperFunctions.OtherPosition | injections/helperfunctions.py:133-137 | inverse of `OtherIndex`: every image other than the anchor is the k-th other image for exactly one k below n - 1 |
| HelperFunctions.Others | injections/helperfunctions.py:131-137 | one element fewer, element k being the `OtherIndex(i, k)`-th of the input |
| HelperFunctions.Partition | injections/helperfunctions.py:131-137 | the loop that skips the anchor builds exactly `Others` of the full and of the effective estimator lists, aligned |
| HelperFunctions.EffectiveSamples | injections/helperfunctions.py:141 | the k-th sample is the sample of the k-th other image's effective estimator at call `call + k`, a valid frame with the effective columns and n rows |
| HelperFunctions.Overwritten | injections/helperfunctions.py:144-145 | position by position, the frame with its named columns replaced from the matching source, still valid, same columns and height |
| HelperFunctions.AnchorComposites | injections/helperfunctions.py:139-145 | one composite per other image, each a valid frame with the full parameter columns and n rows |
| HelperFunctions.CompositeCells | injections/helperfunctions.py:139-145 | in composite k of anchor i, every effective column holds draw `call + 1 + k` of the k-th other image's effective estimator, and every other column holds the anchor's own draw `call`, cell by cell |
| HelperFunctions.CopyFrames | injections/helperfunctions.py:143 | count new, pairwise distinct frame objects, each holding the anchor sample |
| HelperFunctions.OverwriteEach | injections/helperfunctions.py:144-145 | after the loop, each frame holds its previous contents with the named columns replaced from its own source; distinct frames never see each other's writes |
| HelperFunctions.AnchorStep | injections/helperfunctions.py:127-145 | one anchor pass consumes exactly one random call per image and yields distinct new frames whose contents are `AnchorComposites` |
| HelperFunctions.AnchorStartValue | injections/helperfunctions.py:126-141 | anchor a starts at random call `call + a * n_kdes` |
| HelperFunctions.PrefixAt | injections/helperfunctions.py:127 | element a of the first `count` results of the outer loop is the result of pass a |
| HelperFunctions.AnchorsAt | injections/helperfunctions.py:127-145 | after `count` passes, the composites recorded for anchor a are those of anchor a started at its own random call |
| HelperFunctions.FramesOfAppend | injections/helperfunctions.py:127-145 | the frames of the lists after one more pass are those before plus the new pass's frames |
| HelperFunctions.HoldAllAppend | injections/helperfunctions.py:144-145 | appending one pass's frames and contents keeps every earlier pass's frames holding their contents |
| HelperFunctions.SeparateAppend | injections/helperfunctions.py:143-145 | appending a pass of distinct frames, none already present, keeps every frame of every anchor distinct from every other |
| HelperFunctions.AppendAnchor | injections/helperfunctions.py:127-145 | one pass of the outer loop advances the random state to the next anchor's start, keeps the earlier lists unchanged, adds a list of new frames holding the new anchor's composites, and keeps every frame separate from every other |
| HelperFunctions.NextPass | injections/helperfunctions.py:127-145 | one pass of the outer loop takes the state after the earlier anchors to the state after this anchor: the random state at the next start, every anchor's frames holding its composites, every frame separate, the new frames fresh |
| HelperFunctions.JointKdeAnalysis | injections/helperfunctions.py:106-145 | with zero rows asked for and at least one estimator, it raises the ValueError of the first anchor's sample and builds nothing; otherwise the whole analysis ends at random call `AnchorStart(call, n_kdes, n_kdes)`, which is `call + n_kdes * n_kdes` by `AnchorStartValue`; all frames returned are new objects, no frame appears twice (each composite is its own copy), and for every anchor i the i-th list holds `AnchorComposites` of anchor i started at its own call |
| LensedInjections.SelectedUpTo | injections/create_lensed_injections.py:21 | at most m indices are selected from the first m events, each below m |
| LensedInjections.SelectedUpToMembers | injections/create_lensed_injections.py:18-21 | an index is selected exactly when it is in range, the event has at least four images, and each of its first four SNRs is strictly above 8 |
| LensedInjections.SelectedMembers | injections/create_lensed_injections.py:18-21 | the same characterisation over the whole catalogue |
| LensedInjections.SelectedUpToIncreasing | injections/create_lensed_injections.py:21 | the selected indices are strictly increasing |
| LensedInjections.SnrAtCutRejects | injections/create_lensed_injections.py:19-21 | an event with one of its first four SNRs exactly 8 is not selected, because the comparison is strict |
| LensedInjections.FifthSnrIgnored | injections/create_lensed_injections.py:16-21 | the fifth image's SNR has no effect on which events are selected |
| LensedInjections.ImageColumns | injections/create_lensed_injections.py:25-28 | four columns, one entry per selected index, entry k of column c being image c of event `idx[k]` |
| LensedInjections.Keep | injections/create_lensed_injections.py:21-28 | the kept indices are the selected ones, with four magnification and four time-delay columns |
| LensedInjections.KeptRowsOfDetectable | injections/create_lensed_injections.py:21-28 | an event appears among the kept rows exactly when it is detectable, and at its row `mu_c` and `td_c` hold its image-c magnification and time delay |
| LensedInjections.BookkeepingIsReloadDropped | injections/create_lensed_injections.py:34-44 | the names saved, the names dropped on reload and the first fourteen labels built for the header are the same fourteen distinct keys |
| LensedInjections.Archive | injections/create_lensed_injections.py:34 | the archive's keys are the fourteen bookkeeping names followed by the simulator's parameter names; the first fourteen entries hold the bookkeeping arrays in keyword order, and the rest are exactly the simulator's parameters |
| LensedInjections.BookkeepingEntries | injections/create_lensed_injections.py:34 | the bookkeeping arrays are saved under the fourteen bookkeeping names, in order: entry k is keyed by the k-th name and holds the k-th array, so `idx` is stored under "idx" |
| LensedInjections.KeysAppend | injections/create_lensed_injections.py:34 | the keys of a concatenation are the concatenated keys |
| LensedInjections.Drop | injections/create_lensed_injections.py:41 | every kept entry comes from the input and has a key that is not dropped |
| LensedInjections.DropKeys | injections/create_lensed_injections.py:41 | a key survives the filter exactly when it was present and is not dropped |
| LensedInjections.GwParametersKeys | injections/create_lensed_injections.py:41 | the reloaded parameter keys are exactly the archive's keys minus the bookkeeping names |
| LensedInjections.DropAppend | injections/create_lensed_injections.py:41 | filtering a concatenation is the concatenation of the filtered parts, so order is kept |
| LensedInjections.DropKeepsOthers | injections/create_lensed_injections.py:41 | entries with undropped keys all survive, in order |
| LensedInjections.DropRemovesDropped | injections/create_lensed_injections.py:41 | entries with dropped keys all disappear |
| LensedInjections.ReloadRoundTrip | injections/create_lensed_injections.py:34-41 | saving and reloading gives back exactly the simulator's parameters: keys, arrays and order |
| LensedInjections.HeaderAfterReload | injections/create_lensed_injections.py:44 | the label list built after the reload holds the fourteen bookkeeping names and then exactly the simulator's parameter names, in order |
| Decimal.NatToString | injections/read_injection_data.py:34-36 | a non-empty string of digits with no leading zero |
| Decimal.IntToString | injections/read_injection_data.py:34-36 | non-empty, starting with a minus sign exactly for negative numbers |
| Decimal.NatToStringValue | injections/read_injection_data.py:16-18 | the digits read back as the number they were written from |
| Decimal.IntToStringRoundTrip | injections/read_injection_data.py:16-18 | `int("%d" % i) == i` for every integer |
| Decimal.ParseInt | injections/read_injection_data.py:16-18 | `int(text)` succeeds exactly on an optional sign followed by at least one digit, and the value is the digits' value, negated after a minus sign |
| Decimal.LeadingZeroIgnored | injections/read_injection_data.py:16-18 | a leading zero does not change the number read |
| InjectionData.Field | injections/read_injection_data.py:21-36 | ValueError exactly when the field is missing; IndexError exactly when the field is present and the line is out of range; a value exactly when the field is present and the line lies in `-len .. len - 1`, and then it is the value at the line, counted from the end when negative |
| InjectionData.ReadFields | injections/read_injection_data.py:21-36 | reading fields in order succeeds exactly when each can be read, giving their values in order; otherwise the error is that of the first field that cannot be read |
| InjectionData.ImageField | injections/read_injection_data.py:34-36 | the name is the base, an underscore, and a suffix that reads back as the image number |
| InjectionData.ImageFieldsDiffer | injections/read_injection_data.py:34-36 | different image numbers name different columns |
| InjectionData.ReadInjection | injections/read_injection_data.py:21-31 | reading the eleven source fields succeeds exactly when each is readable, and then the injection holds the value of each field at the line; otherwise it fails as reading the fields does |
| InjectionData.ReadInjectionAt | injections/read_injection_data.py:21-31 | a line holding an injection in every source field reads as that injection |
| InjectionData.ReadImage | injections/read_injection_data.py:34-36 | reading the magnification, time delay and image type of an image succeeds exactly when each is readable, and then gives their values at the line; otherwise it fails as reading the fields does |
| InjectionData.ReadImageAt | injections/read_injection_data.py:34-36 | a line holding an image's lensing in its three columns reads as that lensing |
| InjectionData.Effective | injections/read_injection_data.py:42-44 | defined exactly when the magnification is non-zero; the time is shifted by the delay, the phase by minus pi times half the type, and the distance times the root of the absolute magnification is the source distance; every other parameter is unchanged |
| InjectionData.IntrinsicOfEffective | injections/read_injection_data.py:42-44 | undoing the lensing of an image gives back the source |
| InjectionData.EffectiveOfIntrinsic | injections/read_injection_data.py:42-44 | lensing the recovered source gives back the image's effective parameters |
| InjectionData.EffectiveDistanceSquared | injections/read_injection_data.py:43 | the squared effective distance times the absolute magnification is the squared source distance |
| InjectionData.ImagesOfOneSource | injections/read_injection_data.py:42-43 | two images of one source differ in time by the difference of their delays, and their squared distances are inversely proportional to their absolute magnifications |
| InjectionData.PrintedValues | injections/read_injection_data.py:42-48 | position by position, the printed line is the masses and spins, the distance divided by the root of the absolute magnification, the time shifted by the delay, the phase shifted by minus pi times half the type, then the four angles |
| InjectionData.ReadInjectionData | injections/read_injection_data.py:5-18 | the usage exit happens exactly when the argument count is not four; an unparsable line number raises ValueError, and so does an unparsable image number after a valid line number; a printed line has eleven values |
| InjectionData.ReadInjectionDataLineOutOfRange | injections/read_injection_data.py:16-31 | with valid numbers and every source field present, a line out of range for the first field raises IndexError |
| InjectionData.ReadInjectionDataPrints | injections/read_injection_data.py:13-48 | for an injection and image present at the line, running the script on that line and image number prints the image's effective parameters in the order the source fields were read |

Five functions compute without a contract of their own. The lemmas about them state what they do:

- `LensedInjections.Selected` (create_lensed_injections.py:21): `SelectedMembers`.
- `LensedInjections.GwParameters` (create_lensed_injections.py:41): `GwParametersKeys` and `ReloadRoundTrip`.
- `LensedInjections.Labels` (create_lensed_injections.py:44): `HeaderAfterReload`.
- `InjectionData.Values` (read_injection_data.py:48): `PrintedValues`.
- `InjectionData.MorsePhase` (read_injection_data.py:38-39): `Effective`.

## Left out

- Loading the bilby results (`load_all_results`, helperfunctions.py:7-54) is left out. It is file I/O on pickled objects, and only the posteriors it returns are modelled, as tables.
- The estimator itself (`kde.py`) is left out. Fitting is modelled as keeping the selected training columns, and sampling is the abstract `draw` parameter. Bandwidths, the quantile transform and scoring are floating-point numerics the model does not compute.
- `joint_bayes_factors.py` is not part of this model. It calls a sampling function that the repository does not define.
- The population simulator, `np.savez`, `np.load` and `np.savetxt` are left out as I/O. The archive is modelled as an ordered list of named arrays.
- The text file of create_lensed_injections.py:45 is not modelled. The array stacked there mixes the `idx`, `mu` and `td` arrays, one entry per kept event, with the `snr` and parameter arrays, one entry per simulated event. So line 45 raises unless every event passes the cut: current numpy raises ValueError building the array, and older numpy writes the header line and then raises TypeError in `savetxt`. `Labels` and `HeaderAfterReload` describe the label list built at line 44, not a written file.
- `np.genfromtxt` is left out. The table is given as one column of reals per header name. `print` and `sys.exit` are left out too; the run's ending is the `Outcome` value.
- Floating point is left out. Reals are exact, and `np.sqrt` and `np.pi` are the parameters `sqrt` and `pi`.
- InjectionData.ReadInjectionData: a zero magnification ends in `NonFinite`, where numpy would print `inf` or `nan` for the distance.
- Decimal.ParseInt: `int()` also accepts surrounding whitespace, digit-separating underscores and non-ASCII Unicode decimal digits; the model accepts only an optional sign followed by ASCII digits.
- HelperFunctions.Fit: the estimator's quantile transform raises ValueError on a posterior with no rows or on an empty parameter list (kde.py:14, called from helperfunctions.py:79 and 82); the model returns Ok there.
- HelperFunctions.BuildKdes: for the same reason, an empty posterior or an empty parameter list raises ValueError in the source, where the model returns Ok.
- InjectionData.Field: `np.genfromtxt` squeezes a file with a single data row into a 0-d record, so indexing it by line raises IndexError, where the model returns the value.
- Frames.Select: frames with duplicate column names are left out. Every table has distinct column names.
- HelperFunctions.JointKdeAnalysis requires `|kdes| <= |kdesEff|`, and requires every estimator it samples, the first `|kdes|` of each list, to have the dimension of the parameter list it is sampled with. The source fails with IndexError or ValueError otherwise, and those error paths are not modelled.
- HelperFunctions.JointKdeAnalysis requires the effective parameters to be among the full ones. Assigning a missing column would make pandas append a new column, and that is not modelled.
- HelperFunctions.JointKdeAnalysis returns the composites. The source discards them and returns nothing.
- LensedInjections.Catalog: every per-image row has five entries, as the simulator returns by default. The fifth column is read at create_lensed_injections.py:16, so a narrower catalogue would fail there.
