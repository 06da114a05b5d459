/**
 * The device manager (`BLEManager`): the scan that lists force sensors by
 * name, and the table of sessions it keeps, one per device address.
 *
 * The radio is not modelled: a scan is given the devices it discovered, and
 * a connection attempt is given what the transport does (see
 * `SensorSession.ConnectOutcome`) and the frames of the baseline window.
 */
module DeviceRegistry {
  import opened Wrappers
  import opened Text
  import Sorting
  import ForceCalibration
  import SensorSession

  // ------------------------------------------------------------ scanning

  /** A device the scan discovered: its address and its advertised name, if it has one. */
  datatype Advertisement = Advertisement(address: string, name: Option<string>)

  /** One scan result: an address and the name shown for it. */
  datatype Found = Found(address: string, name: string)

  /** `d.name or ""`: a device without a name is listed under the empty name. */
  function ShownName(d: Advertisement): string
  {
    if d.name.Some? then d.name.value else ""
  }

  /** `(name_contains or "").lower()`: no filter, or an empty one, matches every name. */
  function Needle(nameContains: Option<string>): string
  {
    Lower(if nameContains.Some? then nameContains.value else "")
  }

  /** The lower-cased name of the device contains the needle. */
  predicate Matches(d: Advertisement, needle: string)
  {
    Contains(Lower(ShownName(d)), needle)
  }

  /** The matching devices, in discovery order, each with its shown name. */
  function Matching(devices: seq<Advertisement>, needle: string): (r: seq<Found>)
    ensures |r| <= |devices|
  {
    if devices == [] then []
    else
      var init := Matching(devices[..|devices| - 1], needle);
      var d := devices[|devices| - 1];
      if Matches(d, needle) then init + [Found(d.address, ShownName(d))] else init
  }

  /** The sort key of the scan: the shown name, lower-cased, in Python's string order. */
  predicate NameLe(a: Found, b: Found)
  {
    LexLe(Lower(a.name), Lower(b.name))
  }

  lemma NameLeIsTotalPreorder()
    ensures Sorting.TotalPreorder(NameLe)
  {
    forall a: Found, b: Found
      ensures NameLe(a, b) || NameLe(b, a)
    {
      LexLeTotal(Lower(a.name), Lower(b.name));
    }
    forall a: Found, b: Found, c: Found | NameLe(a, b) && NameLe(b, c)
      ensures NameLe(a, c)
    {
      LexLeTransitive(Lower(a.name), Lower(b.name), Lower(c.name));
    }
  }

  /**
   * A device is listed exactly when its lower-cased name contains the
   * needle, and then under its address and shown name.
   */
  lemma {:induction false} MatchingMembers(devices: seq<Advertisement>, needle: string, f: Found)
    ensures f in Matching(devices, needle)
            <==> exists k :: 0 <= k < |devices| && Matches(devices[k], needle)
                             && f == Found(devices[k].address, ShownName(devices[k]))
  {
    if devices != [] {
      var n := |devices| - 1;
      var init := devices[..n];
      MatchingMembers(init, needle, f);
      if f in Matching(init, needle) {
        var k :| 0 <= k < n && Matches(init[k], needle) && f == Found(init[k].address, ShownName(init[k]));
        assert devices[k] == init[k];
      }
      if exists k :: 0 <= k < |devices| && Matches(devices[k], needle) && f == Found(devices[k].address, ShownName(devices[k])) {
        var k :| 0 <= k < |devices| && Matches(devices[k], needle) && f == Found(devices[k].address, ShownName(devices[k]));
        if k < n {
          assert init[k] == devices[k];
        }
      }
    }
  }

  /** Without a filter every discovered device is listed, in discovery order. */
  lemma {:induction false} MatchingEverything(devices: seq<Advertisement>)
    ensures |Matching(devices, "")| == |devices|
    ensures forall k :: 0 <= k < |devices| ==> Matching(devices, "")[k] == Found(devices[k].address, ShownName(devices[k]))
  {
    if devices != [] {
      var init := devices[..|devices| - 1];
      MatchingEverything(init);
      ContainsEmpty(Lower(ShownName(devices[|devices| - 1])));
      forall k | 0 <= k < |init|
        ensures Matching(devices, "")[k] == Found(devices[k].address, ShownName(devices[k]))
      {
        assert init[k] == devices[k];
      }
    }
  }

  /** No filter and an empty filter are the same; a filter matches whatever its case. */
  lemma NeedleIgnoresCase(n: string)
    ensures Needle(None) == Needle(Some("")) == ""
    ensures Needle(Some(Lower(n))) == Needle(Some(n))
  {
    LowerIdempotent(n);
  }

  /**
   * `scan_force_devices`: the matching devices sorted by lower-cased name;
   * devices whose names tie stay in discovery order. A caller that omits the
   * filter gets the default `"force"`, which is `Some("force")` here; `None`
   * stands for an explicit `None`.
   */
  method ScanForceDevices(devices: seq<Advertisement>, nameContains: Option<string>) returns (out: seq<Found>)
    ensures out == Sorting.SortBy(Matching(devices, Needle(nameContains)), NameLe)
    ensures Sorting.Sorted(out, NameLe)
    ensures multiset(out) == multiset(Matching(devices, Needle(nameContains)))
    ensures forall x :: Sorting.Ties(out, NameLe, x) == Sorting.Ties(Matching(devices, Needle(nameContains)), NameLe, x)
  {
    var needle := Needle(nameContains);
    var found: seq<Found> := [];
    for k := 0 to |devices|
      invariant found == Matching(devices[..k], needle)
    {
      assert devices[..k + 1][..k] == devices[..k];
      var d := devices[k];
      var name := if d.name.Some? then d.name.value else "";
      if Contains(Lower(name), needle) {
        found := found + [Found(d.address, name)];
      }
    }
    assert devices[..|devices|] == devices;
    var a := new Found[|found|](i requires 0 <= i < |found| => found[i]);
    assert a[..] == found;
    Sorting.SortInPlace(a, NameLe);
    out := a[..];
    NameLeIsTotalPreorder();
    Sorting.SortBySorted(found, NameLe);
    Sorting.SortByPermutation(found, NameLe);
    forall x
      ensures Sorting.Ties(out, NameLe, x) == Sorting.Ties(found, NameLe, x)
    {
      Sorting.SortByStable(found, NameLe, x);
    }
  }

  // ------------------------------------------------------------ the session table

  class Registry {
    /** The calibration table every session is built with. */
    const calibrator: ForceCalibration.Calibrator
    /** `readers`: the session of each address connected at least once. */
    var readers: map<string, SensorSession.SensorReader>

    /**
     * Every session is filed under its own address (so no session is filed
     * twice), shares the calibration table, has no save prompt, and keeps
     * its own invariant.
     */
    ghost predicate Valid()
      reads this, readers.Values
    {
      && SensorSession.SessionCalibrator(calibrator)
      && forall a :: a in readers ==>
           && readers[a].address == a && readers[a].calibrator == calibrator
           && !readers[a].hasPrompt && readers[a].Valid()
    }

    constructor (calibrator: ForceCalibration.Calibrator)
      requires SensorSession.SessionCalibrator(calibrator)
      ensures Valid() && this.calibrator == calibrator && readers == map[]
    {
      this.calibrator := calibrator;
      readers := map[];
    }

    /** Two addresses never share a session. */
    lemma SessionsDistinct(a: string, b: string)
      requires Valid() && a in readers && b in readers && a != b
      ensures readers[a] != readers[b]
    {
    }

    /** The state a session is in before a connection attempt: its current one, or a new session's. */
    ghost function Prior(address: string): SensorSession.ReaderState
      reads this, readers.Values
    {
      if address in readers then readers[address].State() else SensorSession.InitialState
    }

    /** The session filed under `address`, created with the shared calibration table on first use. */
    method SessionFor(address: string) returns (reader: SensorSession.SensorReader)
      requires Valid()
      modifies this
      ensures Valid()
      ensures readers == old(readers)[address := reader]
      ensures reader.address == address && reader.Valid()
      ensures address in old(readers) ==> reader == old(readers[address])
      ensures address !in old(readers) ==> fresh(reader) && reader.State() == SensorSession.InitialState
    {
      if address in readers {
        reader := readers[address];
      } else {
        reader := new SensorSession.SensorReader(address, calibrator, false);
        readers := readers[address := reader];
      }
    }

    /**
     * `connect`: an address whose session is connected is left alone and
     * reported connected; otherwise its session, created on first use, makes
     * one connection attempt. No session is dropped or replaced, and no other
     * session changes.
     */
    method Connect(address: string, outcome: SensorSession.ConnectOutcome, baselineFrames: seq<string>) returns (ok: bool)
      requires Valid()
      modifies this, readers.Values
      ensures Valid()
      ensures address in readers && readers == old(readers)[address := readers[address]]
      ensures address in old(readers) ==> readers[address] == old(readers[address])
      ensures address !in old(readers) ==> fresh(readers[address])
      ensures forall a :: a in readers && a != address ==> readers[a].State() == old(readers[a].State())
      ensures old(address in readers && readers[address].isConnected) ==>
                ok && readers[address].State() == old(Prior(address))
      ensures !old(address in readers && readers[address].isConnected) ==>
                && (ok <==> outcome == SensorSession.Connected)
                && readers[address].State() == SensorSession.AfterConnect(old(Prior(address)), outcome, baselineFrames)
    {
      if address in readers && readers[address].isConnected {
        return true;
      }
      ok := Attempt(address, outcome, baselineFrames);
    }

    /** The connection attempt of `connect`, on the session filed under `address` or on a new one. */
    method Attempt(address: string, outcome: SensorSession.ConnectOutcome, baselineFrames: seq<string>) returns (ok: bool)
      requires Valid()
      modifies this, readers.Values
      ensures Valid()
      ensures address in readers && readers == old(readers)[address := readers[address]]
      ensures address in old(readers) ==> readers[address] == old(readers[address])
      ensures address !in old(readers) ==> fresh(readers[address])
      ensures forall a :: a in readers && a != address ==> readers[a].State() == old(readers[a].State())
      ensures ok <==> outcome == SensorSession.Connected
      ensures readers[address].State() == SensorSession.AfterConnect(old(Prior(address)), outcome, baselineFrames)
    {
      var reader := SessionFor(address);
      ok := reader.ConnectDevice(outcome, baselineFrames);
    }

    /**
     * `disconnect`: an unknown address is reported disconnected and nothing
     * changes; otherwise its session is disconnected, which always succeeds.
     */
    method Disconnect(address: string) returns (ok: bool)
      requires Valid()
      modifies readers.Values
      ensures Valid()
      ensures ok
      ensures forall a :: a in readers && a != address ==> readers[a].State() == old(readers[a].State())
      ensures address in readers ==>
                readers[address].State() == old(readers[address].State()).(hasClient := false, isConnected := false, isReading := false)
    {
      if address !in readers {
        return true;
      }
      ok := readers[address].DisconnectDevice();
    }

    /** `disconnect_all`: every session ends neither reading nor connected nor holding a client. */
    method DisconnectAll()
      requires Valid()
      modifies readers.Values
      ensures Valid()
      ensures forall a :: a in readers ==>
                readers[a].State() == old(readers[a].State()).(hasClient := false, isConnected := false, isReading := false)
    {
      var pending := readers.Keys;
      while pending != {}
        invariant Valid()
        invariant pending <= readers.Keys
        invariant forall a :: a in pending ==> readers[a].State() == old(readers[a].State())
        invariant forall a :: a in readers && a !in pending ==>
                    readers[a].State() == old(readers[a].State()).(hasClient := false, isConnected := false, isReading := false)
        decreases pending
      {
        var address :| address in pending;
        var _ := Disconnect(address);
        pending := pending - {address};
      }
    }
  }
}
