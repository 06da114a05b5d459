/**
 * One device's acquisition session (`AsyncSensorReader`) and the recorder
 * behind it (`_save_data`).
 *
 * The Bluetooth transport is not modelled: what it decides is passed in, the
 * outcome of a connection attempt, the frames that arrive during the baseline
 * window, whether the link is up when reading starts, and the answer of the
 * save prompt. The clock and the calendar are parameters too (the host time of
 * a frame, today's date and the Unix timestamp of a save), and the file system
 * is the sequence of files the session has written.
 */
module SensorSession {
  import opened Wrappers
  import opened Text
  import ForceCalibration
  import SensorFrames
  import Despike

  /** One buffered reading: the host time it arrived at and a value (a raw count or a force in newtons). */
  datatype Sample = Sample(hostTime: real, value: real)

  /**
   * `_pending_meta`, a dictionary whose keys depend on who wrote it last:
   * `None` stands for a key the dictionary does not have.
   */
  datatype PendingMeta = PendingMeta(turfId: string, distanceCm: Option<real>, speedMps: Option<real>, weightKg: Option<real>)

  /** The metadata a new session starts with. */
  const InitialMeta := PendingMeta("ERROR", Some(0.0), Some(0.0), Some(0.0))

  /** The metadata `_clear_buffers` resets to. */
  const ClearedMeta := PendingMeta("UNKNOWN", Some(0.0), Some(0.0), Some(0.0))

  /** The metadata `start_reading` stores: only the athlete id, `"UNKNOWN"` for an empty one. */
  function RunMeta(athleteId: string): PendingMeta
  {
    PendingMeta(if athleteId == "" then "UNKNOWN" else athleteId, None, None, None)
  }

  /** The size of the despike window and the spike threshold in scaled MADs, as the recorder calls the filter. */
  const FilterWindow: nat := 11
  const FilterSigmas: real := 5.0

  // ------------------------------------------------------------ frames

  /** The reading of each line, in arrival order: its V3 value when the line holds a frame. */
  function Readings(lines: seq<string>): (r: seq<Option<real>>)
    ensures |r| == |lines|
  {
    seq(|lines|, k requires 0 <= k < |lines| => SensorFrames.ReadRaw(lines[k]))
  }

  /** The values present in a sequence of optional values, in order. */
  function Present(opts: seq<Option<real>>): (r: seq<real>)
    ensures |r| <= |opts|
  {
    if opts == [] then []
    else
      var last := opts[|opts| - 1];
      Present(opts[..|opts| - 1]) + (if last.Some? then [last.value] else [])
  }

  /** A value is present exactly when some entry holds it. */
  lemma {:induction false} PresentMembers(opts: seq<Option<real>>, v: real)
    ensures v in Present(opts) <==> Some(v) in opts
  {
    if opts != [] {
      var init := opts[..|opts| - 1];
      PresentMembers(init, v);
      assert opts == init + [opts[|opts| - 1]];
    }
  }

  /** The raw values of the frames that parse, in arrival order (what the baseline handler collects). */
  function RawValues(lines: seq<string>): (r: seq<real>)
    ensures |r| <= |lines|
  {
    Present(Readings(lines))
  }

  /** One more line adds its value exactly when it parses. */
  lemma RawValuesSnoc(lines: seq<string>, line: string)
    ensures var m := SensorFrames.ReadRaw(line);
      RawValues(lines + [line]) == RawValues(lines) + (if m.Some? then [m.value] else [])
  {
    var r := Readings(lines + [line]);
    assert r[..|lines|] == Readings(lines);
    assert r[|lines|] == SensorFrames.ReadRaw(line);
  }

  /**
   * Every collected baseline value is read from some frame, and every frame
   * that parses contributes its value: a line is dropped exactly when it
   * does not parse.
   */
  lemma RawValuesFromFrames(lines: seq<string>, v: real)
    ensures v in RawValues(lines) <==> exists k :: 0 <= k < |lines| && SensorFrames.ReadRaw(lines[k]) == Some(v)
  {
    var r := Readings(lines);
    PresentMembers(r, v);
    if Some(v) in r {
      var k :| 0 <= k < |r| && r[k] == Some(v);
      assert SensorFrames.ReadRaw(lines[k]) == Some(v);
    }
    if exists k :: 0 <= k < |lines| && SensorFrames.ReadRaw(lines[k]) == Some(v) {
      var k :| 0 <= k < |lines| && SensorFrames.ReadRaw(lines[k]) == Some(v);
      assert r[k] == Some(v);
    }
  }

  /** The session baseline: the median of the baseline values, or 0.0 when none arrived. */
  function Baseline(samples: seq<real>): real
  {
    if samples == [] then 0.0 else Despike.Median(samples)
  }

  /** The baseline is 0.0 without samples, and otherwise lies between the least and greatest sample. */
  lemma BaselineWithinSamples(samples: seq<real>)
    ensures samples == [] ==> Baseline(samples) == 0.0
    ensures samples != [] ==> ((exists k :: 0 <= k < |samples| && samples[k] <= Baseline(samples))
                               && (exists k :: 0 <= k < |samples| && Baseline(samples) <= samples[k]))
  {
    if samples != [] {
      Despike.MedianBetweenExtremes(samples);
    }
  }

  // ------------------------------------------------------------ force conversion of a buffer

  /** The calibrators a session is built with: valid, piecewise, extrapolating. */
  ghost predicate SessionCalibrator(c: ForceCalibration.Calibrator)
  {
    c.Valid() && c.conversion == ForceCalibration.Piecewise && c.allowExtrapolation
  }

  /** The force column for a raw column, each sample converted against the baseline recorded beside it. */
  ghost function Converted(c: ForceCalibration.Calibrator, raw: seq<Sample>, baselines: seq<real>): (r: seq<Sample>)
    requires SessionCalibrator(c) && |baselines| == |raw|
  {
    seq(|raw|, k requires 0 <= k < |raw| => Sample(raw[k].hostTime, ForceCalibration.RawToForce(c, raw[k].value, baselines[k])))
  }

  /** Converting one more sample extends the force column by its conversion and leaves the earlier ones alone. */
  lemma ConvertedAppend(c: ForceCalibration.Calibrator, raw: seq<Sample>, baselines: seq<real>, x: Sample, b: real)
    requires SessionCalibrator(c) && |baselines| == |raw|
    ensures Converted(c, raw + [x], baselines + [b])
            == Converted(c, raw, baselines) + [Sample(x.hostTime, ForceCalibration.RawToForce(c, x.value, b))]
  {
    var lhs := Converted(c, raw + [x], baselines + [b]);
    var rhs := Converted(c, raw, baselines) + [Sample(x.hostTime, ForceCalibration.RawToForce(c, x.value, b))];
    forall k | 0 <= k < |raw| + 1
      ensures lhs[k] == rhs[k]
    {
      if k < |raw| {
        assert (raw + [x])[k] == raw[k] && (baselines + [b])[k] == baselines[k];
      }
    }
  }

  // ------------------------------------------------------------ the recorder

  /** One pair of the zipped buffers: the raw sample's host time, the raw value and the force. */
  datatype Combined = Combined(hostTime: real, raw: real, force: real)

  /** One written CSV row: `Host_Time_s,Raw_V3,Force_N,Raw_V3_Filtered`. */
  datatype Row = Row(hostTime: real, raw: real, force: real, filteredRaw: real)

  /** A written file: its path and its data rows (after the header). */
  datatype Artifact = Artifact(path: string, rows: seq<Row>)

  function Min(a: nat, b: nat): nat
  {
    if a <= b then a else b
  }

  /** `zip(log_raw_data, log_force_data)`: pairs up to the shorter buffer, the host time taken from the raw side. */
  function Zip(raw: seq<Sample>, force: seq<Sample>): (r: seq<Combined>)
    ensures |r| == Min(|raw|, |force|)
  {
    seq(Min(|raw|, |force|), k requires 0 <= k < Min(|raw|, |force|) => Combined(raw[k].hostTime, raw[k].value, force[k].value))
  }

  function RawColumn(combined: seq<Combined>): (r: seq<real>)
    ensures |r| == |combined|
  {
    seq(|combined|, k requires 0 <= k < |combined| => combined[k].raw)
  }

  /** `int(x)` on a float: truncation toward zero. */
  function Trunc(x: real): int
  {
    if x >= 0.0 then x.Floor else -((-x).Floor)
  }

  /** Truncation keeps the sign and drops less than one unit of magnitude. */
  lemma TruncTowardZero(x: real)
    ensures x >= 0.0 ==> 0 <= Trunc(x) && Trunc(x) as real <= x < Trunc(x) as real + 1.0
    ensures x < 0.0 ==> Trunc(x) <= 0 && Trunc(x) as real - 1.0 < x <= Trunc(x) as real
  {
  }

  /** `readings/<date>_<id>` for a non-blank athlete id (stripped), `readings/<date>` otherwise. */
  function SaveDirectory(today: string, athleteId: string): string
  {
    var id := Strip(athleteId);
    "readings/" + (if id != "" then today + "_" + id else today)
  }

  /** `<timestamp>_<distance>cm_<weight>kg_grip_data.csv`, distance and weight truncated to integers. */
  function FileName(timestamp: int, distanceCm: real, weightKg: real): string
  {
    IntToString(timestamp) + "_" + IntToString(Trunc(distanceCm)) + "cm_" + IntToString(Trunc(weightKg)) + "kg_grip_data.csv"
  }

  function SavePath(today: string, athleteId: string, timestamp: int, distanceCm: real, weightKg: real): string
  {
    SaveDirectory(today, athleteId) + "/" + FileName(timestamp, distanceCm, weightKg)
  }

  /** The rows of a file: each zipped pair with the filtered raw value at the same index. */
  function Rows(combined: seq<Combined>, filtered: seq<real>): (r: seq<Row>)
    requires |filtered| == |combined|
    ensures |r| == |combined|
  {
    seq(|combined|, k requires 0 <= k < |combined| => Row(combined[k].hostTime, combined[k].raw, combined[k].force, filtered[k]))
  }

  /** What `_save_data` writes: nothing for empty zipped buffers, otherwise one file at the path above. */
  function ArtifactOf(raw: seq<Sample>, force: seq<Sample>, athleteId: string, distanceCm: real, weightKg: real,
                      today: string, timestamp: int): Option<Artifact>
  {
    var combined := Zip(raw, force);
    if combined == [] then None
    else
      var filtered := Despike.Hampel(RawColumn(combined), FilterWindow / 2, FilterSigmas);
      Some(Artifact(SavePath(today, athleteId, timestamp, distanceCm, weightKg), Rows(combined, filtered)))
  }

  /**
   * A file is written exactly when both buffers hold a sample; it has one
   * row per pair up to the shorter buffer, row `k` holds raw sample `k`, the
   * force of force sample `k`, and a filtered raw value that is either the
   * raw value or the median of its window, never outside that window's range.
   */
  lemma ArtifactRows(raw: seq<Sample>, force: seq<Sample>, athleteId: string, distanceCm: real, weightKg: real,
                     today: string, timestamp: int, k: nat)
    ensures var a := ArtifactOf(raw, force, athleteId, distanceCm, weightKg, today, timestamp);
      a.Some? <==> raw != [] && force != []
    ensures var a := ArtifactOf(raw, force, athleteId, distanceCm, weightKg, today, timestamp);
      a.Some? ==> |a.value.rows| == Min(|raw|, |force|) && a.value.path == SavePath(today, athleteId, timestamp, distanceCm, weightKg)
    ensures var a := ArtifactOf(raw, force, athleteId, distanceCm, weightKg, today, timestamp);
      a.Some? && k < |a.value.rows| ==>
        var row, vals := a.value.rows[k], RawColumn(Zip(raw, force));
        && row.hostTime == raw[k].hostTime && row.raw == raw[k].value && row.force == force[k].value
        && (row.filteredRaw == raw[k].value || row.filteredRaw == Despike.Median(Despike.Window(vals, k, FilterWindow / 2)))
        && (exists j :: 0 <= j < |vals| && vals[j] <= row.filteredRaw)
        && (exists j :: 0 <= j < |vals| && row.filteredRaw <= vals[j])
  {
    var a := ArtifactOf(raw, force, athleteId, distanceCm, weightKg, today, timestamp);
    if a.Some? && k < |a.value.rows| {
      var vals := RawColumn(Zip(raw, force));
      Despike.HampelKeepsOrReplaces(vals, FilterWindow / 2, FilterSigmas, k);
      Despike.HampelWithinWindow(vals, FilterWindow / 2, FilterSigmas, k);
    }
  }

  /**
   * Different non-blank athlete ids (after stripping) get different
   * directories on the same day, and a blank id shares the bare date
   * directory with every other blank id.
   */
  lemma SaveDirectorySeparatesAthletes(today: string, a: string, b: string)
    ensures Strip(a) == Strip(b) ==> SaveDirectory(today, a) == SaveDirectory(today, b)
    ensures Strip(a) != Strip(b) ==> SaveDirectory(today, a) != SaveDirectory(today, b)
    ensures Strip(a) == "" ==> SaveDirectory(today, a) == "readings/" + today
  {
    var p := "readings/" + today;
    var da, db := SaveDirectory(today, a), SaveDirectory(today, b);
    if Strip(a) != Strip(b) {
      if Strip(a) != "" && Strip(b) != "" {
        assert da == p + "_" + Strip(a);
        assert db == p + "_" + Strip(b);
        assert da[|p| + 1..] == Strip(a);
        assert db[|p| + 1..] == Strip(b);
      } else if Strip(a) == "" {
        assert |da| < |db|;
      } else {
        assert |db| < |da|;
      }
    }
  }

  /** The row loop of `_save_data`: row `k` is zipped pair `k` with filtered value `k`. */
  method WriteRows(combined: seq<Combined>, filtered: seq<real>) returns (rows: seq<Row>)
    requires |filtered| == |combined|
    ensures |rows| == |combined|
    ensures forall k :: 0 <= k < |combined| ==>
              rows[k] == Row(combined[k].hostTime, combined[k].raw, combined[k].force, filtered[k])
  {
    rows := [];
    for k := 0 to |combined|
      invariant |rows| == k
      invariant forall j :: 0 <= j < k ==> rows[j] == Row(combined[j].hostTime, combined[j].raw, combined[j].force, filtered[j])
    {
      rows := rows + [Row(combined[k].hostTime, combined[k].raw, combined[k].force, filtered[k])];
    }
  }

  /** `_save_data`, with the date, the clock and the file writes made explicit. */
  method SaveData(logRaw: seq<Sample>, logForce: seq<Sample>, athleteId: string, distanceCm: real, weightKg: real,
                  today: string, timestamp: int)
    returns (written: Option<Artifact>)
    ensures written == ArtifactOf(logRaw, logForce, athleteId, distanceCm, weightKg, today, timestamp)
  {
    var path := SavePath(today, athleteId, timestamp, distanceCm, weightKg);
    var combined := Zip(logRaw, logForce);
    if |combined| == 0 {
      return None;
    }
    var rawValues := RawColumn(combined);
    var filtered := Despike.HampelFilter(rawValues, FilterWindow, FilterSigmas);
    assert filtered == Despike.Hampel(rawValues, FilterWindow / 2, FilterSigmas);
    var rows := WriteRows(combined, filtered);
    assert rows == Rows(combined, filtered);
    written := Some(Artifact(path, rows));
  }

  // ------------------------------------------------------------ disconnect recovery

  /** The buffers, the metadata and the file written once `_handle_disconnect` has run. */
  datatype Recovery = Recovery(raw: seq<Sample>, force: seq<Sample>, meta: PendingMeta, written: Option<Artifact>)

  /** The state `_clear_buffers` leaves, with nothing written. */
  const Cleared := Recovery([], [], ClearedMeta, None)

  /**
   * Recovery as the code is written: buffers are cleared when the session
   * was not reading or the save was declined; on the save path the call to
   * `_save_data` passes three of its five parameters, raises `TypeError`
   * before writing anything, and the handler's catch-all skips the
   * `_clear_buffers()` after it, so buffers and metadata stay as they were.
   */
  function RecoverAsWritten(wasReading: bool, save: bool, raw: seq<Sample>, force: seq<Sample>, meta: PendingMeta): Recovery
  {
    if !wasReading then Cleared
    else if save then Recovery(raw, force, meta, None)
    else Cleared
  }

  function GetOr(o: Option<real>, d: real): real
  {
    if o.Some? then o.value else d
  }

  /**
   * Recovery as evidently intended: the save path writes the partial capture
   * under the pending metadata (`0` for a distance or weight it does not
   * hold) and then clears the buffers.
   */
  function RecoverIntended(wasReading: bool, save: bool, raw: seq<Sample>, force: seq<Sample>, meta: PendingMeta,
                           today: string, timestamp: int): Recovery
  {
    if wasReading && save then
      Cleared.(written := ArtifactOf(raw, force, meta.turfId, GetOr(meta.distanceCm, 0.0), GetOr(meta.weightKg, 0.0), today, timestamp))
    else Cleared
  }

  /**
   * The finding: with a save confirmed after a link loss during a reading,
   * the code as written neither writes the partial capture nor clears it,
   * while the intended recovery writes one file holding every zipped sample
   * and always ends with empty buffers and reset metadata.
   */
  lemma RecoverySaveDiscrepancy(raw: seq<Sample>, force: seq<Sample>, meta: PendingMeta, today: string, timestamp: int)
    requires raw != [] && force != []
    ensures var w := RecoverAsWritten(true, true, raw, force, meta);
      w.written == None && w.raw == raw && w.force == force && w.meta == meta
    ensures var r := RecoverIntended(true, true, raw, force, meta, today, timestamp);
      r.written.Some? && |r.written.value.rows| == Min(|raw|, |force|)
      && r.written.value.path == SavePath(today, meta.turfId, timestamp, GetOr(meta.distanceCm, 0.0), GetOr(meta.weightKg, 0.0))
  {
    ArtifactRows(raw, force, meta.turfId, GetOr(meta.distanceCm, 0.0), GetOr(meta.weightKg, 0.0), today, timestamp, 0);
  }

  /**
   * The intended recovery never carries partial data forward, and writes a
   * file exactly when the session was reading, the save was not declined and
   * both buffers hold a sample.
   */
  lemma RecoverIntendedClears(wasReading: bool, save: bool, raw: seq<Sample>, force: seq<Sample>, meta: PendingMeta,
                              today: string, timestamp: int)
    ensures var r := RecoverIntended(wasReading, save, raw, force, meta, today, timestamp);
      r.raw == [] && r.force == [] && r.meta == ClearedMeta
    ensures var r := RecoverIntended(wasReading, save, raw, force, meta, today, timestamp);
      r.written.Some? <==> wasReading && save && raw != [] && force != []
  {
    ArtifactRows(raw, force, meta.turfId, GetOr(meta.distanceCm, 0.0), GetOr(meta.weightKg, 0.0), today, timestamp, 0);
  }

  // ------------------------------------------------------------ the session

  /** How a connection attempt went, step by step through `connect_device`. */
  datatype ConnectOutcome =
    | ConnectRaises            // creating the client or `client.connect()` raised
    | NotConnected             // `client.connect()` returned but the client is not connected
    | BaselineSubscribeRaises  // subscribing the baseline handler raised
    | SubscribeRaises          // subscribing the notification handler after the baseline raised
    | Connected                // every step succeeded

  /** What the save prompt did when it was awaited. */
  datatype PromptAnswer = Answered(save: bool) | PromptRaises

  /** The whole state of a session, for saying what an operation leaves unchanged. */
  datatype ReaderState = ReaderState(
    hasClient: bool, isConnected: bool, isReading: bool, offset: real,
    rawData: seq<Sample>, forceData: seq<Sample>, pendingMeta: PendingMeta, written: seq<Artifact>)

  /** A new session: no client, not connected, not reading, a zero baseline, empty buffers. */
  const InitialState := ReaderState(false, false, false, 0.0, [], [], InitialMeta, [])

  /**
   * The state `connect_device` leaves: the client kept only when the
   * connection call returned, connected only on full success, and the
   * baseline replaced once the baseline window has run.
   */
  function AfterConnect(s: ReaderState, outcome: ConnectOutcome, baselineFrames: seq<string>): ReaderState
  {
    s.(hasClient := outcome == Connected || outcome == NotConnected,
       isConnected := outcome == Connected,
       offset := if outcome == Connected || outcome == SubscribeRaises then Baseline(RawValues(baselineFrames)) else s.offset)
  }

  class SensorReader {
    const address: string
    const calibrator: ForceCalibration.Calibrator
    /** Whether a save prompt callback was supplied. */
    const hasPrompt: bool

    /** Whether the session holds a client object (`self.client` is not `None`). */
    var hasClient: bool
    var isConnected: bool
    var isReading: bool
    /** `offSetValue`, the baseline the calibration axis is shifted onto. */
    var offset: real
    /** `collected_raw_data` and `collected_force_data`. */
    var rawData: seq<Sample>
    var forceData: seq<Sample>
    var pendingMeta: PendingMeta
    /** The files this session has written, in order. */
    var written: seq<Artifact>
    /** The baseline each buffered sample was converted against. */
    ghost var baselines: seq<real>

    /** The buffers stay index-aligned: force sample `k` is raw sample `k` converted at the baseline of its arrival. */
    ghost predicate Valid()
      reads this`rawData, this`forceData, this`baselines
    {
      && SessionCalibrator(calibrator)
      && |baselines| == |rawData|
      && forceData == Converted(calibrator, rawData, baselines)
    }

    function State(): ReaderState
      reads this
    {
      ReaderState(hasClient, isConnected, isReading, offset, rawData, forceData, pendingMeta, written)
    }

    constructor (address: string, calibrator: ForceCalibration.Calibrator, hasPrompt: bool)
      requires SessionCalibrator(calibrator)
      ensures Valid()
      ensures this.address == address && this.calibrator == calibrator && this.hasPrompt == hasPrompt
      ensures State() == InitialState
    {
      this.address := address;
      this.calibrator := calibrator;
      this.hasPrompt := hasPrompt;
      hasClient, isConnected, isReading := false, false, false;
      offset := 0.0;
      rawData, forceData, baselines := [], [], [];
      pendingMeta := InitialMeta;
      written := [];
    }

    /**
     * `notification_handler`: while reading, a line that parses appends its
     * V3 value to the raw buffer and its conversion at the current baseline
     * to the force buffer, both with the same host time; anything else is
     * ignored.
     */
    method NotificationHandler(hostTime: real, line: string)
      requires Valid()
      modifies this
      ensures Valid()
      ensures var v := SensorFrames.ReadRaw(line);
        if old(isReading) && v.Some? then
          && rawData == old(rawData) + [Sample(hostTime, v.value)]
          && forceData == old(forceData) + [Sample(hostTime, ForceCalibration.RawToForce(calibrator, v.value, offset))]
        else rawData == old(rawData) && forceData == old(forceData)
      ensures State() == old(State()).(rawData := rawData, forceData := forceData)
    {
      if isReading {
        var m := SensorFrames.ReadRaw(line);
        if m.Some? {
          Append(hostTime, m.value);
        }
      }
    }

    /** The two appends of `notification_handler`: the raw value, and its conversion at the current baseline. */
    method Append(hostTime: real, v3Raw: real)
      requires Valid()
      modifies this`rawData, this`forceData, this`baselines
      ensures Valid()
      ensures rawData == old(rawData) + [Sample(hostTime, v3Raw)]
      ensures forceData == old(forceData) + [Sample(hostTime, ForceCalibration.RawToForce(calibrator, v3Raw, offset))]
    {
      ConvertedAppend(calibrator, rawData, baselines, Sample(hostTime, v3Raw), offset);
      rawData := rawData + [Sample(hostTime, v3Raw)];
      var v3Force := ForceCalibration.RawToForce(calibrator, v3Raw, offset);
      forceData := forceData + [Sample(hostTime, v3Force)];
      baselines := baselines + [offset];
    }

    /** `_clear_buffers`: both buffers emptied and the metadata reset. */
    method ClearBuffers()
      requires Valid()
      modifies this
      ensures Valid()
      ensures State() == old(State()).(rawData := [], forceData := [], pendingMeta := ClearedMeta)
    {
      rawData := [];
      forceData := [];
      baselines := [];
      pendingMeta := ClearedMeta;
    }

    /**
     * The baseline handler of `connect_device`, called once per frame that
     * arrives during the baseline window: the V3 values of the frames that
     * parse, in order.
     */
    static method CollectBaseline(frames: seq<string>) returns (samples: seq<real>)
      ensures samples == RawValues(frames)
    {
      samples := [];
      for k := 0 to |frames|
        invariant samples == RawValues(frames[..k])
      {
        var m := SensorFrames.ReadRaw(frames[k]);
        RawValuesSnoc(frames[..k], frames[k]);
        assert frames[..k + 1] == frames[..k] + [frames[k]];
        if m.Some? {
          samples := samples + [m.value];
        }
      }
      assert frames[..|frames|] == frames;
    }

    /** The baseline window's result: the median of the V3 values that parsed, 0.0 when none did. */
    static method TakeBaseline(frames: seq<string>) returns (b: real)
      ensures b == Baseline(RawValues(frames))
    {
      var baselineSamples := CollectBaseline(frames);
      if baselineSamples != [] {
        b := Despike.Median(baselineSamples);
      } else {
        b := 0.0;
      }
    }

    /**
     * `connect_device`: any previous client is dropped; on success the
     * baseline becomes the median of the frames received during the baseline
     * window (0.0 when none parsed) and the session is connected. Every
     * failure leaves it disconnected; a failure after the baseline was taken
     * still keeps the new baseline, and a client that connected without
     * reporting a link is kept.
     */
    method ConnectDevice(outcome: ConnectOutcome, baselineFrames: seq<string>) returns (ok: bool)
      requires Valid()
      modifies this`hasClient, this`isConnected, this`offset
      ensures Valid()
      ensures ok <==> outcome == Connected
      ensures State() == AfterConnect(old(State()), outcome, baselineFrames)
    {
      if hasClient {
        // disconnecting the stale client; its errors are ignored
        hasClient := false;
      }
      hasClient := true;
      if outcome == ConnectRaises || outcome == BaselineSubscribeRaises {
        // creating the client, connecting it or subscribing the baseline handler raised
        isConnected := false;
        hasClient := false;
        ok := false;
      } else if outcome == NotConnected {
        isConnected := false;
        ok := false;
      } else {
        offset := TakeBaseline(baselineFrames);
        if outcome == SubscribeRaises {
          isConnected := false;
          hasClient := false;
          ok := false;
        } else {
          isConnected := true;
          ok := true;
        }
      }
    }

    /** `disconnect_device`: always succeeds, and leaves the session neither reading nor connected nor holding a client. */
    method DisconnectDevice() returns (ok: bool)
      requires Valid()
      modifies this
      ensures Valid()
      ensures ok
      ensures State() == old(State()).(hasClient := false, isConnected := false, isReading := false)
    {
      isReading := false;
      if hasClient {
        // stop_notify and disconnect, their errors ignored
        hasClient := false;
      }
      isConnected := false;
      return true;
    }

    /**
     * `start_reading`: only with a client whose link is up (`linkUp` is the
     * client's `is_connected`); then both buffers are emptied, reading starts
     * for direction 0 only, and the metadata becomes the athlete id alone.
     * Distance and weight are accepted by the source and not used.
     */
    method StartReading(linkUp: bool, athleteId: string, direction: int) returns (ok: bool)
      requires Valid()
      modifies this
      ensures Valid()
      ensures ok <==> old(hasClient) && linkUp
      ensures !ok ==> State() == old(State())
      ensures ok ==> State() == old(State()).(rawData := [], forceData := [], pendingMeta := RunMeta(athleteId),
                                              isReading := old(isReading) || direction == 0)
    {
      if hasClient && linkUp {
        rawData := [];
        forceData := [];
        baselines := [];
        if direction == 0 {
          isReading := true;
        }
        pendingMeta := RunMeta(athleteId);
        return true;
      }
      return false;
    }

    /**
     * `stop_reading`: reading stops, the buffers are saved under the given
     * metadata (a file only when both hold a sample), then cleared; the path
     * of the file written, if any, is returned.
     */
    method StopReading(athleteId: string, distanceCm: real, weightKg: real, today: string, timestamp: int)
      returns (filename: Option<string>)
      requires Valid()
      modifies this
      ensures Valid()
      ensures var a := ArtifactOf(old(rawData), old(forceData), athleteId, distanceCm, weightKg, today, timestamp);
        && filename == (if a.Some? then Some(a.value.path) else None)
        && written == old(written) + (if a.Some? then [a.value] else [])
      ensures State() == old(State()).(isReading := false, rawData := [], forceData := [], pendingMeta := ClearedMeta,
                                       written := written)
    {
      isReading := false;
      var a := Record(rawData, forceData, athleteId, distanceCm, weightKg, today, timestamp);
      if a.Some? {
        filename := Some(a.value.path);
      } else {
        filename := None;
      }
      ClearBuffers();
    }

    /** `_save_data` on the session's buffers, the file it writes kept in `written`. */
    method Record(raw: seq<Sample>, force: seq<Sample>, athleteId: string, distanceCm: real, weightKg: real,
                  today: string, timestamp: int)
      returns (a: Option<Artifact>)
      modifies this`written
      ensures a == ArtifactOf(raw, force, athleteId, distanceCm, weightKg, today, timestamp)
      ensures written == old(written) + (if a.Some? then [a.value] else [])
    {
      a := SaveData(raw, force, athleteId, distanceCm, weightKg, today, timestamp);
      if a.Some? {
        written := written + [a.value];
      }
    }

    /** Whether to save after a link loss: yes without a prompt or when the prompt raises, else its answer. */
    function SaveChoice(answer: PromptAnswer): bool
      reads this
    {
      !hasPrompt || answer.PromptRaises? || answer.save
    }

    /**
     * `_handle_disconnect`, run as one step: both flags cleared and the
     * client dropped; the prompt is awaited whenever there is one, before the
     * reading flag is looked at; then the buffers are handled as
     * `RecoverAsWritten` says. Returns whether the prompt was awaited.
     */
    method HandleDisconnect(answer: PromptAnswer) returns (prompted: bool)
      requires Valid()
      modifies this
      ensures Valid()
      ensures prompted == hasPrompt
      ensures var r := RecoverAsWritten(old(isReading), SaveChoice(answer), old(rawData), old(forceData), old(pendingMeta));
        State() == old(State()).(hasClient := false, isConnected := false, isReading := false,
                                 rawData := r.raw, forceData := r.force, pendingMeta := r.meta)
    {
      var wasReading := isReading;
      isConnected := false;
      isReading := false;
      var save := true;
      prompted := false;
      if hasPrompt {
        prompted := true;
        match answer
        case PromptRaises =>
          save := true;
        case Answered(b) =>
          save := b;
      }
      if hasClient {
        hasClient := false;
      }
      if !wasReading || !save {
        ClearBuffers();
      }
      // Otherwise `self._save_data(raw, force, turf_id)` misses two positional
      // parameters: it raises `TypeError`, the outer `except` swallows it, and
      // the `_clear_buffers()` after it is skipped.
    }

    /**
     * `_handle_disconnect` with the save call given all five parameters (the
     * pending distance and weight, `0` when absent): a confirmed save writes
     * the partial capture, and the buffers are cleared on every path.
     */
    method HandleDisconnectIntended(answer: PromptAnswer, today: string, timestamp: int) returns (prompted: bool)
      requires Valid()
      modifies this
      ensures Valid()
      ensures prompted == hasPrompt
      ensures var r := RecoverIntended(old(isReading), SaveChoice(answer), old(rawData), old(forceData), old(pendingMeta), today, timestamp);
        && written == old(written) + (if r.written.Some? then [r.written.value] else [])
        && State() == old(State()).(hasClient := false, isConnected := false, isReading := false,
                                    rawData := r.raw, forceData := r.force, pendingMeta := r.meta, written := written)
    {
      var wasReading := isReading;
      isConnected := false;
      isReading := false;
      var save := true;
      prompted := false;
      if hasPrompt {
        prompted := true;
        match answer
        case PromptRaises =>
          save := true;
        case Answered(b) =>
          save := b;
      }
      if hasClient {
        hasClient := false;
      }
      if wasReading && save {
        var meta := pendingMeta;
        var _ := Record(rawData, forceData, meta.turfId, GetOr(meta.distanceCm, 0.0), GetOr(meta.weightKg, 0.0), today, timestamp);
      }
      ClearBuffers();
    }
  }
}
