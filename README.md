# Multi-sensor BLE force acquisition, modelled in Dafny

The modelled program reads grip-force sensors over Bluetooth Low Energy. Each
sensor streams text frames `Time:<int>,V1:<num>,V2:<num>,V3:<num>,V4:<num>`.
The program keeps only the V3 channel. A force in newtons is obtained from
each reading through a calibration table (`V3ForceCalibrator`). The raw axis of
that table is first shifted onto a per-session baseline, which is the median
of the V3 values received during a five-second window after connecting.

Each device has its own session (`AsyncSensorReader`):
- it connects and takes the baseline;
- it buffers raw and converted samples while reading;
- it saves the buffers to a CSV file when reading stops;
- it handles a lost link, which may prompt the user to save the partial capture.

When a file is written, the raw column goes in unchanged, and a despiked copy of it (Hampel-filtered) is written beside it as a fourth column.
A manager (`BLEManager`) lists the sensors found by a scan, sorted by name. It
also keeps one session per device address.

Modules (one per file):
- `Wrappers` (`wrappers.dfy`): `Option` and `Result`.
- `Sorting` (`sorting.dfy`): Python's stable `list.sort(key=...)`. It is a
  functional insertion sort, `SortBy`, with an in-place array version,
  `SortInPlace`, proved equal to it. Sortedness, permutation and stability are
  proved about `SortBy`.
- `Text` (`text.dfy`): `str.strip()`, `str.lower()`, substring search, string
  ordering and decimal numerals.
- `ForceCalibration` (`calibration.dfy`): the calibrator's constructor and
  `raw_to_force` for the piecewise method, with `np.interp` written out.
- `SensorFrames` (`sensor_frames.dfy`): the frame grammar matched by `LINE_RE`,
  as a scanner together with a printer. They are proved inverse to each other.
- `Despike` (`despike.dfy`): `np.median` and `hampel_filter`.
- `SensorSession` (`sensor_session.dfy`): the session as a class whose
  methods update its fields. It also holds the recorder `_save_data`, with the
  clock, the date and the file system made explicit.
- `DeviceRegistry` (`registry.dfy`): the scan filter and sort, and the
  session table as a class.

The Bluetooth transport is never modelled. Each operation is given what the
transport decided:
- the outcome of a connection attempt;
- the frames received during the baseline window;
- whether the link is up;
- the answer of the save prompt;
- the devices a scan discovered.

Floats are modelled as reals.

## Model

| member | source | states |
|---|---|---|
| `ForceCalibration.MethodNamed` | Utils/sensorForceConverter.py:49-50 | Exactly `"piecewise"` and `"linear_fit"` are accepted; any other name is rejected. |
| `ForceCalibration.Create` | Utils/sensorForceConverter.py:24-50 | Fewer than two points fail with `TooFewPoints`. Otherwise an unknown method fails with `UnknownMethod`. Success happens exactly when neither holds. On success the points are the stable sort by raw value: sorted, a permutation of the input, with equal raw values kept in input order. The raw and force columns come from those points, and the method and flag are kept. |
| `ForceCalibration.Bracket` | Utils/sensorForceConverter.py:110 | The segment `np.interp` uses: the last index whose raw value does not exceed the query; every later raw value exceeds it. |
| `ForceCalibration.ExtrapolateDegenerate` | Utils/sensorForceConverter.py:112-117 | When the two raw values coincide, extrapolation returns the first point's force, whatever the query. |
| `ForceCalibration.ExtrapolateThroughPoints` | Utils/sensorForceConverter.py:112-120 | The extrapolation line passes through both of its defining points, with Python negative indices resolved. |
| `ForceCalibration.ShiftedExtrapolation` | Utils/sensorForceConverter.py:96-97 | Extrapolating on the shifted axis equals `_extrapolate` on the table's own axis at the query moved back by the offset. When the baseline is the first raw value, the two coincide. |
| `ForceCalibration.RawToForceBelow` | Utils/sensorForceConverter.py:93-106 | With extrapolation on, a reading at or below the baseline follows the line through the first two table points, anchored at the baseline. A repeated first raw value gives the first force. |
| `ForceCalibration.RawToForceAbove` | Utils/sensorForceConverter.py:93-108 | With extrapolation on, a reading above the baseline and at or beyond the last shifted point follows the line through the last two points. A repeated last raw value gives the second-to-last force. |
| `ForceCalibration.RawToForceClamped` | Utils/sensorForceConverter.py:104-110 | With extrapolation off, readings outside the shifted range are clamped to the first or last calibrated force. |
| `ForceCalibration.InterpAtPoint` | Utils/sensorForceConverter.py:110 | On a strictly increasing axis, interpolating at a table point gives that point's force. |
| `ForceCalibration.RawToForceInterior` | Utils/sensorForceConverter.py:93-110 | On a strictly increasing table, a reading inside the shifted range converts to the linear interpolation between the two bracketing calibration points. |
| `ForceCalibration.RawToForceAtBaseline` | Utils/sensorForceConverter.py:96-106 | With extrapolation on, the baseline converts to the first calibrated force for every table the constructor accepts, repeated raw values included. |
| `ForceCalibration.RawToForceBoundary` | Utils/sensorForceConverter.py:96-110 | On a strictly increasing table, the baseline converts to the first calibrated force and the last shifted point to the last one, with extrapolation on or off. The extrapolation lines therefore meet the interpolated table. With extrapolation off and repeated raw values this can fail: `np.interp` at a repeated first point takes a later force. |
| `ForceCalibration.RawToForceTranslationInvariant` | Utils/sensorForceConverter.py:93-110 | Moving the reading and the baseline by the same amount leaves the force unchanged. |
| `Sorting.SortInPlace` | Utils/sensorForceConverter.py:39 | The in-place sort leaves the array equal to the stable insertion sort of its old contents. |
| `Sorting.SortBySorted` | Utils/sensorForceConverter.py:39 | Under a total preorder, the sort's result is sorted. |
| `Sorting.SortByPermutation` | Utils/sensorForceConverter.py:39 | The sort's result is a permutation of its input. |
| `Sorting.SortByStable` | Utils/sensorForceConverter.py:39 | Elements that tie under the key keep their relative order (Python's sort is stable). |
| `Text.StripIsSlice` | Controller/sensorcontroller.py:96 | `str.strip()` returns a slice of its input. Everything cut off on either side is whitespace, and the result neither starts nor ends with whitespace. |
| `Text.StripIdempotent` | Controller/sensorcontroller.py:96 | Stripping twice is stripping once. |
| `Text.ContainsIff` | Controller/ble_controller.py:50 | `needle in s` holds exactly when some position of `s` starts a copy of the needle. |
| `Text.LexLeTotal` | Controller/ble_controller.py:52 | Python's string `<=` is total. |
| `Text.LexLeTransitive` | Controller/ble_controller.py:52 | Python's string `<=` is transitive. |
| `Text.IntToStringValue` | Controller/sensorcontroller.py:319-324 | `str()` of an integer in the file name is a minus sign for a negative value followed by decimal digits, and reads back as that integer. |
| `SensorFrames.ParseFrameSound` | Controller/sensorcontroller.py:18-20 | A matched frame is well formed for the pattern. Printing it gives a prefix of the line, and the text after it cannot extend its last number. |
| `SensorFrames.ParseRender` | Controller/sensorcontroller.py:18-20 | Round trip: a printed well-formed frame, followed by any text that cannot extend its last number, matches as that same frame. |
| `SensorFrames.ParseFrameComplete` | Controller/sensorcontroller.py:18-20 | Converse of `ParseFrameSound`: a line that starts with a printed frame, followed by text that cannot extend its last number, matches as that frame. |
| `SensorFrames.ParseFramePrefix` | Controller/sensorcontroller.py:18-20 | A line that starts with a printed well-formed frame is matched, whatever follows it: the greedy scan may take more of the last number, but it never fails. |
| `SensorFrames.ParseFrameMatches` | Controller/sensorcontroller.py:18-20 | `LINE_RE.match` semantics: the scanner matches a line exactly when some well-formed frame is printed at its start. A line it rejects, whose sample is dropped, starts with no frame. |
| `SensorFrames.NumeralValue` | Controller/sensorcontroller.py:102 | `float()` of a matched numeral has the numeral's integer part as its magnitude's whole part, and the sign of the minus sign. |
| `SensorFrames.ReadRawRender` | Controller/sensorcontroller.py:96-102 | A notification carrying a printed frame is read as that frame's V3 value. |
| `Despike.MedianBetweenExtremes` | Controller/sensorcontroller.py:33 | The median lies between the least and the greatest value, and is one of the values for an odd count. |
| `Despike.MedianOfConstant` | Controller/sensorcontroller.py:33 | A constant series has that constant as its median. |
| `Despike.MadNonNegative` | Controller/sensorcontroller.py:34 | The median absolute deviation is never negative. |
| `Despike.HampelFilter` | Controller/sensorcontroller.py:23-40 | The loop returns a series of the same length whose element `i` is the filtered value of sample `i`, each window always read from the unfiltered input. |
| `Despike.HampelKeepsOrReplaces` | Controller/sensorcontroller.py:35-39 | Each filtered value is either the sample or the median of its window, and a changed sample was an outlier. |
| `Despike.HampelZeroMad` | Controller/sensorcontroller.py:35-36 | A window whose MAD is zero never has its sample replaced. |
| `Despike.HampelNoOutliers` | Controller/sensorcontroller.py:23-40 | A series without outliers passes through unchanged. |
| `Despike.HampelWithinWindow` | Controller/sensorcontroller.py:30-39 | A filtered value never leaves the range of the input values in its window. |
| `SensorSession.PresentMembers` | Controller/sensorcontroller.py:209-216 | A value is collected exactly when some reading holds it. |
| `SensorSession.RawValuesFromFrames` | Controller/sensorcontroller.py:209-216 | A value is among the baseline samples exactly when some received frame reads as it. |
| `SensorSession.BaselineWithinSamples` | Controller/sensorcontroller.py:229-234 | The baseline is 0.0 without samples, and otherwise lies between the least and the greatest sample. |
| `SensorSession.ConvertedAppend` | Controller/sensorcontroller.py:104-108 | Converting one more sample extends the force column by exactly its conversion and leaves the earlier entries alone. |
| `SensorSession.TruncTowardZero` | Controller/sensorcontroller.py:319-320 | `int()` of a float truncates toward zero: it keeps the sign and drops less than one unit. |
| `SensorSession.ArtifactRows` | Controller/sensorcontroller.py:327-345 | A file is written exactly when both buffers hold a sample. It has one row per pair up to the shorter buffer, at the dated path. Row `k` holds raw sample `k`'s time and value and force sample `k`'s force. Its filtered value is the raw value or its window's median, never outside the range of the raw column. |
| `SensorSession.SaveDirectorySeparatesAthletes` | Controller/sensorcontroller.py:307-313 | Two athlete ids share a directory on a given day exactly when they agree after stripping. A blank id uses the bare date directory. |
| `SensorSession.WriteRows` | Controller/sensorcontroller.py:342-343 | The row loop pairs zipped sample `k` with filtered value `k`, for every `k`. |
| `SensorSession.SaveData` | Controller/sensorcontroller.py:304-346 | `_save_data` writes exactly the artifact described by `ArtifactRows`, and returns its path, or nothing for empty zipped buffers. |
| `SensorSession.RecoverySaveDiscrepancy` | Controller/sensorcontroller.py:153-172 | After a link loss during a reading with the save confirmed, the code as written writes nothing and keeps buffers and metadata. The intended recovery writes every zipped sample at the dated path. |
| `SensorSession.RecoverIntendedClears` | Controller/sensorcontroller.py:153-170 | Intended recovery always ends with empty buffers and reset metadata. It writes a file exactly when the session was reading, the save was not declined, and both buffers hold a sample. |
| `SensorSession.SensorReader.constructor` | Controller/sensorcontroller.py:51-87 | A new session holds no client, is neither connected nor reading, has a 0.0 baseline and empty buffers, and carries the `"ERROR"` metadata. |
| `SensorSession.SensorReader.NotificationHandler` | Controller/sensorcontroller.py:90-111 | While reading, a line that parses appends its V3 value to the raw buffer and its conversion at the current baseline to the force buffer, with one host time. Anything else changes nothing, and the buffers stay index-aligned. |
| `SensorSession.SensorReader.Append` | Controller/sensorcontroller.py:104-108 | The two appends: the raw sample, and its conversion at the current baseline. |
| `SensorSession.SensorReader.ClearBuffers` | Controller/sensorcontroller.py:174-182 | Both buffers are emptied and the metadata is reset to `"UNKNOWN"`; nothing else changes. |
| `SensorSession.SensorReader.CollectBaseline` | Controller/sensorcontroller.py:206-219 | The baseline handler collects the V3 values of exactly the frames that parse, in arrival order. |
| `SensorSession.SensorReader.TakeBaseline` | Controller/sensorcontroller.py:229-234 | The baseline is the median of the collected values, or 0.0 when none arrived. |
| `SensorSession.SensorReader.ConnectDevice` | Controller/sensorcontroller.py:185-252 | It succeeds exactly on the `Connected` outcome. The new state is `AfterConnect`: a stale client is dropped, the client is kept only when the connect call returned, and the session is connected only on success. The baseline is replaced once its window has run, even if the final subscription fails. |
| `SensorSession.SensorReader.DisconnectDevice` | Controller/sensorcontroller.py:254-271 | It always succeeds. The session ends neither reading nor connected nor holding a client; buffers and baseline are untouched. |
| `SensorSession.SensorReader.StartReading` | Controller/sensorcontroller.py:276-286 | It succeeds exactly when a client exists and its link is up. On success: buffers emptied, reading on for direction 0 only, metadata set to the athlete id (`"UNKNOWN"` when empty). On failure nothing changes. |
| `SensorSession.SensorReader.StopReading` | Controller/sensorcontroller.py:288-302 | Reading stops. The buffers are saved under the given metadata, then cleared. The returned path is that of the file written, if any. |
| `SensorSession.SensorReader.Record` | Controller/sensorcontroller.py:292-299 | The save of the session's buffers: the artifact `_save_data` produces, appended to the files written. |
| `SensorSession.SensorReader.HandleDisconnect` | Controller/sensorcontroller.py:127-172 | Both flags are cleared and the client dropped. The prompt is awaited whenever there is one (a raising prompt means save). The buffers end as `RecoverAsWritten`: cleared unless a reading was interrupted and the save was chosen. |
| `SensorSession.SensorReader.HandleDisconnectIntended` | Controller/sensorcontroller.py:127-172 | Same as above, but the save call gets all five parameters. A confirmed save appends the file `RecoverIntended` describes, and the buffers are cleared on every path. |
| `DeviceRegistry.MatchingMembers` | Controller/ble_controller.py:46-51 | A device is listed exactly when its lower-cased name (empty for none) contains the lower-cased filter. It is listed under its address and shown name. |
| `DeviceRegistry.MatchingEverything` | Controller/ble_controller.py:47-51 | With no filter, every discovered device is listed, in discovery order. |
| `DeviceRegistry.NeedleIgnoresCase` | Controller/ble_controller.py:47 | No filter and an empty filter are the same, and the filter's case does not matter. |
| `DeviceRegistry.NameLeIsTotalPreorder` | Controller/ble_controller.py:52 | Ordering by lower-cased name is a total preorder, so the sort is well defined. |
| `DeviceRegistry.ScanForceDevices` | Controller/ble_controller.py:41-53 | The result is the stable sort by lower-cased name of the matching devices. It is sorted, a permutation of the matches, and keeps discovery order among equal names. |
| `DeviceRegistry.Registry.constructor` | Controller/ble_controller.py:37-39 | The manager starts with no sessions. |
| `DeviceRegistry.Registry.SessionsDistinct` | Controller/ble_controller.py:39 | Two addresses never share a session object. |
| `DeviceRegistry.Registry.SessionFor` | Controller/ble_controller.py:59-67 | The session filed under the address is reused. Otherwise a new one is created in the initial state and filed. No other entry changes. |
| `DeviceRegistry.Registry.Connect` | Controller/ble_controller.py:55-69 | An already connected session is reported connected and left alone. Otherwise its session (reused or new) makes one attempt; the result is `ConnectDevice`'s. No session is replaced, and no other session changes. |
| `DeviceRegistry.Registry.Attempt` | Controller/ble_controller.py:59-69 | The attempt path of `connect`: success exactly on `Connected`, and the session's new state is `AfterConnect` of its prior one. |
| `DeviceRegistry.Registry.Disconnect` | Controller/ble_controller.py:71-76 | An unknown address is reported disconnected and nothing changes. Otherwise only that session is disconnected; it always succeeds. |
| `DeviceRegistry.Registry.DisconnectAll` | Controller/ble_controller.py:78-83 | Every session ends neither reading nor connected nor holding a client; nothing else changes. |

## Left out

- The Bluetooth stack (`BleakScanner`, `BleakClient`), the event loop thread, the disconnect lock and the scheduling in `_on_disconnect`. Operations run one at a time, and the transport's decisions are parameters.
- The failure path of `_on_disconnect`, taken when scheduling `_handle_disconnect` fails and both flags are cleared: not modelled.
- UTF-8 decoding with `errors="ignore"`: lines arrive as decoded strings.
- The `Time` field is parsed, but its value is never used, so it is not computed.
- IEEE double rounding: readings, forces, medians and the file's `%.6f` host-time formatting are exact reals.
- `ForceCalibration.RawToForce`: covers only the piecewise method. The `linear_fit` branch and `_linear_fit` use `np.polyfit`, a least-squares solve that is not modelled. `Create` still accepts the method name.
- The `linear_model` and `points` accessors: not modelled.
- `_load_points`, which reads the calibration CSV: a calibrator is built from a given list of points.
- The `AsyncSensorReader` constructor's own loading of the calibration file: a session is given its calibrator.
- `raw_to_force_and_mass` calls `raw_to_force` with one of its two required arguments, so it always raises `TypeError`. Its only caller is the `__main__` block (Utils/sensorForceConverter.py:147), and that line is never reached: line 146 already calls `raw_to_force` with one argument and raises. Not modelled.
- Writing the CSV file and creating directories: a written file is the `Artifact` value of its path and data rows. The header row is fixed and not represented.
- `Text.Lower`: lower-cases ASCII letters only, where Python's `str.lower()` covers all of Unicode.
- `Text.IsDigit`: ASCII digits only, where the pattern's `\d` matches any Unicode decimal digit.
- `ForceCalibration.Interp`: with repeated raw values it follows the segment after the last point not above the query. That is the rule numpy's search gives; other tie behaviour is not modelled.
- `DeviceRegistry.Registry.DisconnectAll`: visits the addresses as a set, not in dictionary order. The result does not depend on the order, since a disconnect never fails and touches one session only.
- `DeviceRegistry.Registry.Connect`: does not take `tx_uuid`, which only names the notify characteristic.
- `print` output and log messages.

Points where the code's behaviour is easy to misread; the model follows the code:
- The save prompt is awaited on every link loss when a callback exists, before the reading flag is examined.
- There is no flag that marks a disconnect as intentional.
- `disconnect_device` never prompts and leaves the buffers as they are.

## Findings

| source | as written | input that shows it | evidently intended | confidence | as-written member | corrected member |
|---|---|---|---|---|---|---|
| Controller/sensorcontroller.py:161-167 | After a link loss, `_handle_disconnect` calls `self._save_data(raw, force, turf_id)` with three of the five required parameters. The call raises `TypeError`; the outer `except` swallows it and skips `_clear_buffers()`. Nothing is saved and the buffers keep the partial capture. | A session reading with at least one sample in each buffer, no prompt callback (so `save` is true), then a link loss. | Save the partial capture under the pending metadata (`distance_cm` and `weight_kg` from it, `0` when absent), then clear the buffers. | not executed | `SensorSession.SensorReader.HandleDisconnect` (with `SensorSession.RecoverAsWritten` and `SensorSession.RecoverySaveDiscrepancy`) | `SensorSession.SensorReader.HandleDisconnectIntended` (with `SensorSession.RecoverIntended` and `SensorSession.RecoverIntendedClears`) |
