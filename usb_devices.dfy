/**
  The input-device collector: it reads /proc/bus/input/devices line by line
  with one dictionary `device` in hand. A `T:` line replaces it by a fresh
  empty dictionary, a `P:` line appends it (the object, not a copy) to the
  result, and `S:`/`D:` lines set its product, manufacturer or port. An
  entry is therefore shared by every `P:` line between two `T:` lines, and
  attributes set after a `P:` line still show up in the entries it appended.
 */
module UsbDevices {
  import opened Wrappers
  import opened PyText

  /** The contents of one dictionary: each key is present or absent. */
  datatype UsbDevice = UsbDevice(product: Option<string>, manufacturer: Option<string>, port: Option<string>)

  /** `{}` */
  const Blank := UsbDevice(None, None, None)

  predicate IsT(line: string) {
    StartsWith(line, "T:")
  }

  predicate IsP(line: string) {
    StartsWith(line, "P:")
  }

  /** `line.split('=')[1].strip()`: the text between the first and the second
      `=`, trimmed. */
  function AttrValue(line: string): (v: string)
    requires '=' in line
    ensures '=' !in v
  {
    var parts := SplitOn(line, '=');
    StripInside(parts[1], '=');
    Strip(parts[1])
  }

  /** The attribute an `S:` or `D:` line stores. */
  datatype Attr = ProductIs(value: string) | ManufacturerIs(value: string) | PortIs(value: string)

  /** Which branch of the loop body's `elif` chain a line takes. */
  datatype Branch = NewDevice | Append | SetAttr(attr: Attr) | Skip

  /** A line starts with at most one of the tags. */
  lemma TagsExclusive(line: string)
    ensures IsP(line) ==> !IsT(line) && !StartsWith(line, "S:") && !StartsWith(line, "D:")
  {
    if IsP(line) {
      assert line[0] == line[..2][0] == 'P';
    }
  }

  /** The `elif` chain: `T:` first, then `P:`, then product, manufacturer and
      port, each attribute line needing its tag and its key. */
  function Classify(line: string): (b: Branch)
    ensures b == NewDevice <==> IsT(line)
    ensures b == Append <==> IsP(line)
  {
    TagsExclusive(line);
    if IsT(line) then NewDevice
    else if IsP(line) then Append
    else if StartsWith(line, "S:") && Contains(line, "Product=") then
      ContainsChar(line, "Product=", '=');
      SetAttr(ProductIs(AttrValue(line)))
    else if StartsWith(line, "S:") && Contains(line, "Manufacturer=") then
      ContainsChar(line, "Manufacturer=", '=');
      SetAttr(ManufacturerIs(AttrValue(line)))
    else if StartsWith(line, "D:") && Contains(line, "Port=") then
      ContainsChar(line, "Port=", '=');
      SetAttr(PortIs(AttrValue(line)))
    else Skip
  }

  /** The attribute branches of the `elif` chain: each is taken exactly when
      the earlier tests fail and its own tag and key are there, and it stores
      the text after the line's first `=`. Every other line changes nothing. */
  lemma ClassifyAttributes(line: string, d: UsbDevice)
    ensures var b := Classify(line);
            var product := StartsWith(line, "S:") && Contains(line, "Product=");
            var manufacturer := StartsWith(line, "S:") && Contains(line, "Manufacturer=");
            var port := StartsWith(line, "D:") && Contains(line, "Port=");
            var rest := !IsT(line) && !IsP(line);
            && (b.SetAttr? && b.attr.ProductIs? <==> rest && product)
            && (b.SetAttr? && b.attr.ManufacturerIs? <==> rest && !product && manufacturer)
            && (b.SetAttr? && b.attr.PortIs? <==> rest && !product && !manufacturer && port)
            && (b.SetAttr? ==> '=' in line && b.attr.value == AttrValue(line))
            && (b == Skip <==> rest && !product && !manufacturer && !port)
            && (b == Skip ==> Apply(d, b) == d)
  {
    if !IsT(line) && !IsP(line) {
      if StartsWith(line, "S:") && Contains(line, "Product=") {
        ContainsChar(line, "Product=", '=');
      } else if StartsWith(line, "S:") && Contains(line, "Manufacturer=") {
        ContainsChar(line, "Manufacturer=", '=');
      } else if StartsWith(line, "D:") && Contains(line, "Port=") {
        ContainsChar(line, "Port=", '=');
      }
    }
  }

  /** What a branch does to the contents of the dictionary in hand. */
  function Apply(d: UsbDevice, b: Branch): UsbDevice {
    match b
    case SetAttr(ProductIs(v)) => d.(product := Some(v))
    case SetAttr(ManufacturerIs(v)) => d.(manufacturer := Some(v))
    case SetAttr(PortIs(v)) => d.(port := Some(v))
    case _ => d
  }

  /** A mutable dictionary holding the three keys the collector sets. */
  class Device {
    var product: Option<string>
    var manufacturer: Option<string>
    var port: Option<string>

    function Value(): UsbDevice
      reads this
    {
      UsbDevice(product, manufacturer, port)
    }

    /** `{}` */
    constructor ()
      ensures Value() == Blank
    {
      product, manufacturer, port := None, None, None;
    }

    /** The `S:` and `D:` branches: store one attribute in place. */
    method Update(line: string)
      requires !IsT(line) && !IsP(line)
      modifies this
      ensures Value() == Apply(old(Value()), Classify(line))
    {
      if StartsWith(line, "S:") && Contains(line, "Product=") {
        ContainsChar(line, "Product=", '=');
        product := Some(AttrValue(line));
      } else if StartsWith(line, "S:") && Contains(line, "Manufacturer=") {
        ContainsChar(line, "Manufacturer=", '=');
        manufacturer := Some(AttrValue(line));
      } else if StartsWith(line, "D:") && Contains(line, "Port=") {
        ContainsChar(line, "Port=", '=');
        port := Some(AttrValue(line));
      }
    }
  }

  /** The collector's state as values: the contents of every dictionary
      created so far (the one in hand is the last), and for each appended
      entry the dictionary it is. */
  datatype ScanState = ScanState(store: seq<UsbDevice>, emitted: seq<nat>)

  predicate WellFormed(st: ScanState) {
    && |st.store| >= 1
    && forall k | 0 <= k < |st.emitted| :: st.emitted[k] < |st.store|
  }

  /** One pass of the loop body. */
  function Step(st: ScanState, b: Branch): (st': ScanState)
    requires WellFormed(st)
    ensures WellFormed(st')
  {
    var cur := |st.store| - 1;
    match b
    case NewDevice => ScanState(st.store + [Blank], st.emitted)
    case Append => ScanState(st.store, st.emitted + [cur])
    case _ => ScanState(st.store[cur := Apply(st.store[cur], b)], st.emitted)
  }

  /** The state after the loop has taken the branches `bs`. */
  function Run(bs: seq<Branch>): (st: ScanState)
    ensures WellFormed(st)
  {
    if bs == [] then ScanState([Blank], [])
    else Step(Run(bs[..|bs| - 1]), bs[|bs| - 1])
  }

  /** What the returned list shows once reading is over: each entry is the
      final contents of the dictionary it refers to. */
  function Resolve(st: ScanState): (devices: seq<UsbDevice>)
    requires WellFormed(st)
    ensures |devices| == |st.emitted|
    ensures forall k | 0 <= k < |devices| :: devices[k] == st.store[st.emitted[k]]
  {
    seq(|st.emitted|, k requires 0 <= k < |st.emitted| => st.store[st.emitted[k]])
  }

  /** The branch each line takes. */
  function Branches(lines: seq<string>): (bs: seq<Branch>)
    ensures |bs| == |lines|
  {
    if lines == [] then []
    else Branches(lines[..|lines| - 1]) + [Classify(lines[|lines| - 1])]
  }

  /** The branch of line `i` is its classification. */
  lemma {:induction false} BranchAt(lines: seq<string>, i: nat)
    requires i < |lines|
    ensures Branches(lines)[i] == Classify(lines[i])
    decreases |lines|
  {
    var init := lines[..|lines| - 1];
    if i < |init| {
      BranchAt(init, i);
    }
  }

  /** Classifying a prefix of the lines gives a prefix of the branches. */
  lemma {:induction false} BranchesPrefix(lines: seq<string>, n: nat)
    requires n <= |lines|
    ensures Branches(lines)[..n] == Branches(lines[..n])
    decreases |lines| - n
  {
    if n < |lines| {
      var init := lines[..|lines| - 1];
      assert init[..n] == lines[..n];
      BranchesPrefix(init, n);
    } else {
      assert lines[..n] == lines;
    }
  }

  /** The collector's result for the lines of /proc/bus/input/devices. */
  function Devices(lines: seq<string>): seq<UsbDevice> {
    Resolve(Run(Branches(lines)))
  }

  /** The dictionaries before the one in hand hold the contents `vs`. */
  ghost predicate Frozen(ds: seq<Device>, vs: seq<UsbDevice>)
    reads ds
  {
    |ds| == |vs| && forall j | 0 <= j < |ds| :: ds[j].Value() == vs[j]
  }

  /** The dictionaries as objects mirror `st`: `dicts[j]` is the `j`-th
      dictionary created, `device` the one in hand, and each entry of
      `devices` the dictionary it was appended from. */
  ghost predicate Mirrors(device: Device, devices: seq<Device>, dicts: seq<Device>, st: ScanState)
    reads dicts
  {
    && WellFormed(st)
    && |dicts| == |st.store| && dicts[|dicts| - 1] == device
    && (forall a, b | 0 <= a < b < |dicts| :: dicts[a] != dicts[b])
    && Frozen(dicts[..|dicts| - 1], st.store[..|st.store| - 1])
    && device.Value() == st.store[|st.store| - 1]
    && |devices| == |st.emitted|
    && (forall k | 0 <= k < |devices| :: devices[k] == dicts[st.emitted[k]])
  }

  /** Each dictionary holds its contents in `st`. */
  lemma MirrorsValues(device: Device, devices: seq<Device>, dicts: seq<Device>, st: ScanState)
    requires Mirrors(device, devices, dicts, st)
    ensures forall j | 0 <= j < |dicts| :: dicts[j].Value() == st.store[j]
  {
    forall j | 0 <= j < |dicts|
      ensures dicts[j].Value() == st.store[j]
    {
      if j < |dicts| - 1 {
        assert dicts[..|dicts| - 1][j] == dicts[j];
        assert st.store[..|st.store| - 1][j] == st.store[j];
      }
    }
  }

  /** The `T:` branch, `device = {}`: a fresh, empty dictionary in hand. */
  method StartDevice(ghost device: Device, devices: seq<Device>, ghost dicts: seq<Device>, ghost st: ScanState)
    returns (device': Device, ghost dicts': seq<Device>)
    requires Mirrors(device, devices, dicts, st)
    ensures fresh(device')
    ensures Mirrors(device', devices, dicts', Step(st, NewDevice))
  {
    StepShape(st, NewDevice);
    MirrorsValues(device, devices, dicts, st);
    device' := new Device();
    dicts' := dicts + [device'];
    assert dicts'[..|dicts'| - 1] == dicts;
  }

  /** The `P:` branch, `usb_devices.append(device)`: the entry is the
      dictionary in hand itself. */
  lemma AppendMirrors(device: Device, devices: seq<Device>, dicts: seq<Device>, st: ScanState)
    requires Mirrors(device, devices, dicts, st)
    ensures Mirrors(device, devices + [device], dicts, Step(st, Append))
  {
    StepShape(st, Append);
  }

  /** The `S:` and `D:` branches: the attribute is stored in the dictionary
      in hand, so every entry appended from it shows it too. */
  method SetAttribute(line: string, device: Device, devices: seq<Device>, ghost dicts: seq<Device>, ghost st: ScanState)
    requires Mirrors(device, devices, dicts, st)
    requires !IsT(line) && !IsP(line)
    modifies device
    ensures Mirrors(device, devices, dicts, Step(st, Classify(line)))
  {
    ghost var before := device.Value();
    assert device !in dicts[..|dicts| - 1];
    device.Update(line);
    SetMirrors(device, devices, dicts, st, Classify(line), before);
  }

  /** Storing an attribute in the dictionary in hand, whose contents were
      `before`, while the others stay as they were, takes the mirror one
      step further. */
  lemma SetMirrors(device: Device, devices: seq<Device>, dicts: seq<Device>, st: ScanState, b: Branch, before: UsbDevice)
    requires WellFormed(st) && |dicts| == |st.store| && dicts[|dicts| - 1] == device
    requires forall a, c | 0 <= a < c < |dicts| :: dicts[a] != dicts[c]
    requires Frozen(dicts[..|dicts| - 1], st.store[..|st.store| - 1])
    requires before == st.store[|st.store| - 1]
    requires b != NewDevice && b != Append && device.Value() == Apply(before, b)
    requires |devices| == |st.emitted| && forall k | 0 <= k < |devices| :: devices[k] == dicts[st.emitted[k]]
    ensures Mirrors(device, devices, dicts, Step(st, b))
  {
    StepShape(st, b);
    assert Step(st, b).store[..|dicts| - 1] == st.store[..|dicts| - 1];
  }

  /** The collector. The returned dictionaries are the `Device` objects it
      allocated; two entries are the same object exactly when they were
      appended from the same dictionary. */
  method GetUsbDevices(lines: seq<string>) returns (devices: seq<Device>)
    ensures |devices| == |Devices(lines)|
    ensures forall k | 0 <= k < |devices| :: devices[k].Value() == Devices(lines)[k]
    ensures var emitted := Run(Branches(lines)).emitted;
            forall k, j | 0 <= k < |devices| && 0 <= j < |devices| ::
              devices[k] == devices[j] <==> emitted[k] == emitted[j]
  {
    devices := [];
    var device := new Device();
    ghost var dicts := [device];
    ghost var st := Run([]);
    for i := 0 to |lines|
      invariant st == Run(Branches(lines[..i]))
      invariant fresh(device)
      invariant Mirrors(device, devices, dicts, st)
    {
      var line := lines[i];
      RunSnoc(lines, i);
      if StartsWith(line, "T:") {
        device, dicts := StartDevice(device, devices, dicts, st);
      } else if StartsWith(line, "P:") {
        AppendMirrors(device, devices, dicts, st);
        devices := devices + [device];
      } else {
        SetAttribute(line, device, devices, dicts, st);
      }
      st := Step(st, Classify(line));
    }
    assert lines[..|lines|] == lines;
    MirrorsValues(device, devices, dicts, st);
  }

  /** What one step does to the dictionaries and the entries. */
  lemma StepShape(st: ScanState, b: Branch)
    requires WellFormed(st)
    ensures var cur, st' := |st.store| - 1, Step(st, b);
            && (b == NewDevice ==> st'.store == st.store + [Blank] && st'.emitted == st.emitted)
            && (b == Append ==> st'.store == st.store && st'.emitted == st.emitted + [cur])
            && (b != NewDevice && b != Append ==>
                  st'.store == st.store[cur := Apply(st.store[cur], b)] && st'.emitted == st.emitted)
  {
  }

  /** Reading one more line takes one more step. */
  lemma RunSnoc(lines: seq<string>, i: nat)
    requires i < |lines|
    ensures Run(Branches(lines[..i + 1])) == Step(Run(Branches(lines[..i])), Classify(lines[i]))
  {
    assert lines[..i + 1][..i] == lines[..i];
  }

  // ---------------------------------------------------------------------
  // Properties of the scan, over the branches taken
  // ---------------------------------------------------------------------

  /** How many entries the branches append. */
  function Appends(bs: seq<Branch>): nat {
    if bs == [] then 0
    else Appends(bs[..|bs| - 1]) + (if bs[|bs| - 1] == Append then 1 else 0)
  }

  /** The contents a fresh dictionary ends with after the branches
      `bs[lo..hi]`. */
  function AttrsBetween(bs: seq<Branch>, lo: nat, hi: nat): UsbDevice
    requires lo <= hi <= |bs|
    decreases hi - lo
  {
    if hi == lo then Blank else Apply(AttrsBetween(bs, lo, hi - 1), bs[hi - 1])
  }

  /** Only the branches in `bs[lo..hi]` matter. */
  lemma {:induction false} AttrsPrefix(bs: seq<Branch>, n: nat, lo: nat, hi: nat)
    requires lo <= hi <= n <= |bs|
    ensures AttrsBetween(bs[..n], lo, hi) == AttrsBetween(bs, lo, hi)
    decreases hi - lo
  {
    if lo < hi {
      AttrsPrefix(bs, n, lo, hi - 1);
    }
  }

  /** Index of the last `T:` line, or -1. */
  function LastNew(bs: seq<Branch>): (t: int)
    ensures -1 <= t < |bs|
    ensures 0 <= t ==> bs[t] == NewDevice
    ensures forall j | t < j < |bs| :: bs[j] != NewDevice
  {
    if bs == [] then -1
    else if bs[|bs| - 1] == NewDevice then |bs| - 1
    else LastNew(bs[..|bs| - 1])
  }

  /** Index of the first `T:` line at or after `p`, or `|bs|`. */
  function NextNew(bs: seq<Branch>, p: nat): (n: nat)
    requires p <= |bs|
    ensures p <= n <= |bs|
    ensures forall j | p <= j < n :: bs[j] != NewDevice
    ensures n < |bs| ==> bs[n] == NewDevice
    decreases |bs| - p
  {
    if p == |bs| || bs[p] == NewDevice then p else NextNew(bs, p + 1)
  }

  /** The run appends one entry per `Append` branch. */
  lemma {:induction false} RunEmits(bs: seq<Branch>)
    ensures |Run(bs).emitted| == Appends(bs)
    decreases |bs|
  {
    if bs != [] {
      RunEmits(bs[..|bs| - 1]);
    }
  }

  /** Without `T:` lines in `bs[p..q]`, the last one before `q` is the last
      one before `p`. */
  lemma {:induction false} LastNewStable(bs: seq<Branch>, p: nat, q: nat)
    requires p <= q <= |bs|
    requires forall j | p <= j < q :: bs[j] != NewDevice
    ensures LastNew(bs[..q]) == LastNew(bs[..p])
    decreases q - p
  {
    if p < q {
      assert bs[..q][..q - 1] == bs[..q - 1];
      LastNewStable(bs, p, q - 1);
    }
  }

  /** Without `T:` lines in `bs[p..q]`, the next one from `p` is the next one
      from `q`. */
  lemma {:induction false} NextNewSkips(bs: seq<Branch>, p: nat, q: nat)
    requires p <= q <= |bs|
    requires forall j | p <= j < q :: bs[j] != NewDevice
    ensures NextNew(bs, p) == NextNew(bs, q)
    decreases q - p
  {
    if p < q {
      NextNewSkips(bs, p + 1, q);
    }
  }

  /** The dictionary in hand holds what was set since the last `T:` line. */
  lemma {:induction false} CurrentDevice(bs: seq<Branch>)
    ensures Run(bs).store[|Run(bs).store| - 1] == AttrsBetween(bs, LastNew(bs) + 1, |bs|)
    decreases |bs|
  {
    if bs != [] {
      var init, b := bs[..|bs| - 1], bs[|bs| - 1];
      CurrentDevice(init);
      StepShape(Run(init), b);
      if b != NewDevice {
        AttrsPrefix(bs, |init|, LastNew(init) + 1, |init|);
      }
    }
  }

  /** Taking more branches never changes a dictionary that has been replaced. */
  lemma {:induction false} RunStoreGrows(bs: seq<Branch>, n: nat)
    requires n <= |bs|
    ensures var s1, s2 := Run(bs[..n]).store, Run(bs).store;
            && |s1| <= |s2|
            && forall i | 0 <= i < |s1| - 1 :: s2[i] == s1[i]
    decreases |bs| - n
  {
    if n == |bs| {
      assert bs[..n] == bs;
    } else {
      var init := bs[..|bs| - 1];
      assert init[..n] == bs[..n];
      RunStoreGrows(init, n);
      StepShape(Run(init), bs[|bs| - 1]);
    }
  }

  /** Taking more branches only appends entries. */
  lemma {:induction false} RunEmittedGrows(bs: seq<Branch>, n: nat)
    requires n <= |bs|
    ensures var e1, e2 := Run(bs[..n]).emitted, Run(bs).emitted;
            |e1| <= |e2| && e2[..|e1|] == e1
    decreases |bs| - n
  {
    if n == |bs| {
      assert bs[..n] == bs;
    } else {
      var init := bs[..|bs| - 1];
      assert init[..n] == bs[..n];
      RunEmittedGrows(init, n);
      StepShape(Run(init), bs[|bs| - 1]);
    }
  }

  /** Without a further `T:` line no dictionary is added. */
  lemma {:induction false} RunSameStoreCount(bs: seq<Branch>, n: nat)
    requires n <= |bs|
    requires forall j | n <= j < |bs| :: bs[j] != NewDevice
    ensures |Run(bs).store| == |Run(bs[..n]).store|
    decreases |bs| - n
  {
    if n == |bs| {
      assert bs[..n] == bs;
    } else {
      var init := bs[..|bs| - 1];
      assert init[..n] == bs[..n];
      RunSameStoreCount(init, n);
      StepShape(Run(init), bs[|bs| - 1]);
    }
  }

  /** The entry an `Append` branch adds ends up holding what the branches
      between the `T:` line before it and the `T:` line after it set. */
  lemma EntryAt(bs: seq<Branch>, p: nat)
    requires p < |bs| && bs[p] == Append
    ensures Appends(bs[..p]) < |Resolve(Run(bs))|
    ensures Resolve(Run(bs))[Appends(bs[..p])]
            == AttrsBetween(bs, LastNew(bs[..p]) + 1, NextNew(bs, p))
  {
    var c := EntryIndex(bs, p);
    EntryContents(bs, p, c);
  }

  /** The entry the `Append` branch at `p` adds is the dictionary in hand
      when it is taken. */
  lemma EntryIndex(bs: seq<Branch>, p: nat) returns (c: nat)
    requires p < |bs| && bs[p] == Append
    ensures c == |Run(bs[..p]).store| - 1 && c < |Run(bs).store|
    ensures Appends(bs[..p]) < |Resolve(Run(bs))|
    ensures Resolve(Run(bs))[Appends(bs[..p])] == Run(bs).store[c]
  {
    RunEmits(bs[..p]);
    AppendsInHand(bs, p);
    c := |Run(bs[..p]).store| - 1;
  }

  /** The dictionary in hand at `p` ends up holding what the branches between
      the `T:` lines around `p` set. */
  lemma EntryContents(bs: seq<Branch>, p: nat, c: nat)
    requires p <= |bs| && c == |Run(bs[..p]).store| - 1 && c < |Run(bs).store|
    ensures Run(bs).store[c] == AttrsBetween(bs, LastNew(bs[..p]) + 1, NextNew(bs, p))
  {
    var q := NextNew(bs, p);
    // It stays the dictionary in hand up to the next `T:` line, and is never
    // touched after it.
    InHandUntilNew(bs, p);
    if q < |bs| {
      FrozenAfterNew(bs, q, c);
    } else {
      assert bs[..q] == bs;
    }
  }

  /** The `Append` branch at `p` appends the dictionary in hand. */
  lemma AppendsInHand(bs: seq<Branch>, p: nat)
    requires p < |bs| && bs[p] == Append
    ensures var sp := Run(bs[..p]);
            && |sp.emitted| < |Run(bs).emitted|
            && Run(bs).emitted[|sp.emitted|] == |sp.store| - 1
  {
    assert bs[..p + 1][..p] == bs[..p];
    RunEmittedGrows(bs, p + 1);
  }

  /** From `p` up to the next `T:` line, the dictionary in hand stays the same
      one, and it ends up holding what was set since the last `T:` line. */
  lemma InHandUntilNew(bs: seq<Branch>, p: nat)
    requires p <= |bs|
    ensures var q := NextNew(bs, p);
            var c := |Run(bs[..p]).store| - 1;
            && |Run(bs[..q]).store| == c + 1
            && Run(bs[..q]).store[c] == AttrsBetween(bs, LastNew(bs[..p]) + 1, q)
  {
    var q := NextNew(bs, p);
    var m := bs[..q];
    var last := LastNew(bs[..p]);
    var c := |Run(bs[..p]).store| - 1;
    assert |Run(m).store| == c + 1 by { SameStoreUntilNew(bs, p); }
    assert LastNew(m) == last by { LastNewStable(bs, p, q); }
    assert Run(m).store[c] == AttrsBetween(m, last + 1, q) by { CurrentDevice(m); }
    AttrsPrefix(bs, q, last + 1, q);
  }

  /** No dictionary is added before the next `T:` line. */
  lemma SameStoreUntilNew(bs: seq<Branch>, p: nat)
    requires p <= |bs|
    ensures |Run(bs[..NextNew(bs, p)]).store| == |Run(bs[..p]).store|
  {
    var m := bs[..NextNew(bs, p)];
    assert m[..p] == bs[..p];
    RunSameStoreCount(m, p);
  }

  /** A dictionary replaced by the `T:` line at `q` is never changed again. */
  lemma FrozenAfterNew(bs: seq<Branch>, q: nat, c: nat)
    requires q < |bs| && bs[q] == NewDevice && c < |Run(bs[..q]).store|
    ensures c < |Run(bs).store| && Run(bs).store[c] == Run(bs[..q]).store[c]
  {
    assert bs[..q + 1][..q] == bs[..q];
    assert Run(bs[..q + 1]).store == Run(bs[..q]).store + [Blank];
    RunStoreGrows(bs, q + 1);
  }

  // ---------------------------------------------------------------------
  // Properties of the collector, over the lines read
  // ---------------------------------------------------------------------

  /** The number of `P:` lines. */
  function PCount(lines: seq<string>): nat {
    if lines == [] then 0
    else PCount(lines[..|lines| - 1]) + (if IsP(lines[|lines| - 1]) then 1 else 0)
  }

  /** The branches taken count the `P:` lines. */
  lemma {:induction false} AppendsArePLines(lines: seq<string>)
    ensures Appends(Branches(lines)) == PCount(lines)
    decreases |lines|
  {
    if lines != [] {
      var init := lines[..|lines| - 1];
      AppendsArePLines(init);
    }
  }

  /** One entry per `P:` line. */
  lemma EntryCount(lines: seq<string>)
    ensures |Devices(lines)| == PCount(lines)
  {
    RunEmits(Branches(lines));
    AppendsArePLines(lines);
  }

  /** The entry the `P:` line at `p` appends ends up holding what the lines
      between the `T:` line before it and the `T:` line after it set. */
  lemma {:induction false} EntryIsSegment(lines: seq<string>, p: nat)
    requires p < |lines| && IsP(lines[p])
    ensures PCount(lines[..p]) < |Devices(lines)|
    ensures var bs := Branches(lines);
            Devices(lines)[PCount(lines[..p])] == AttrsBetween(bs, LastNew(bs[..p]) + 1, NextNew(bs, p))
  {
    var bs := Branches(lines);
    assert bs[p] == Append by { PLineAppends(lines, p); }
    assert Appends(bs[..p]) == PCount(lines[..p]) by { PLinesBefore(lines, p); }
    EntryAt(bs, p);
  }

  /** A `P:` line takes the `Append` branch. */
  lemma PLineAppends(lines: seq<string>, p: nat)
    requires p < |lines| && IsP(lines[p])
    ensures Branches(lines)[p] == Append
  {
    BranchAt(lines, p);
  }

  /** The `Append` branches before `p` are the `P:` lines before it. */
  lemma PLinesBefore(lines: seq<string>, p: nat)
    requires p <= |lines|
    ensures Appends(Branches(lines)[..p]) == PCount(lines[..p])
  {
    BranchesPrefix(lines, p);
    AppendsArePLines(lines[..p]);
  }

  /** Two `P:` lines with no `T:` line between them append the same
      dictionary, so their entries are equal, whatever lies between them. */
  lemma SharedEntry(lines: seq<string>, p1: nat, p2: nat)
    requires p1 < p2 < |lines| && IsP(lines[p1]) && IsP(lines[p2])
    requires forall j | p1 <= j < p2 :: !IsT(lines[j])
    ensures PCount(lines[..p1]) < PCount(lines[..p2]) < |Devices(lines)|
    ensures Devices(lines)[PCount(lines[..p1])] == Devices(lines)[PCount(lines[..p2])]
  {
    var bs := Branches(lines);
    assert PCount(lines[..p1]) < PCount(lines[..p2]) by {
      assert lines[..p1 + 1][..p1] == lines[..p1];
      PCountGrows(lines, p1 + 1, p2);
    }
    PLinesBefore(lines, p1);
    PLinesBefore(lines, p2);
    PLineAppends(lines, p1);
    PLineAppends(lines, p2);
    forall j | p1 <= j < p2
      ensures bs[j] != NewDevice
    {
      BranchAt(lines, j);
    }
    SharedEntryBranches(bs, p1, p2);
  }

  /** Two `Append` branches with no `NewDevice` between them resolve to the
      same contents. */
  lemma SharedEntryBranches(bs: seq<Branch>, p1: nat, p2: nat)
    requires p1 < p2 < |bs| && bs[p1] == Append && bs[p2] == Append
    requires forall j | p1 <= j < p2 :: bs[j] != NewDevice
    ensures Appends(bs[..p1]) < |Resolve(Run(bs))| && Appends(bs[..p2]) < |Resolve(Run(bs))|
    ensures Resolve(Run(bs))[Appends(bs[..p1])] == Resolve(Run(bs))[Appends(bs[..p2])]
  {
    EntryAt(bs, p1);
    EntryAt(bs, p2);
    LastNewStable(bs, p1, p2);
    NextNewSkips(bs, p1, p2);
  }

  /** `PCount` of a prefix never decreases as the prefix grows. */
  lemma {:induction false} PCountGrows(lines: seq<string>, p: nat, q: nat)
    requires p <= q <= |lines|
    ensures PCount(lines[..p]) <= PCount(lines[..q])
    decreases q - p
  {
    if p < q {
      assert lines[..q][..q - 1] == lines[..q - 1];
      PCountGrows(lines, p, q - 1);
    }
  }

  /** A `T:` line starts a fresh, empty dictionary. */
  lemma FreshAfterT(lines: seq<string>)
    requires lines != [] && IsT(lines[|lines| - 1])
    ensures var st := Run(Branches(lines));
            |st.store| == |Run(Branches(lines[..|lines| - 1])).store| + 1
            && st.store[|st.store| - 1] == Blank
  {
  }

  /** An `S:` line naming both a product and a manufacturer sets only the
      product: the `elif` chain stops at the first match. */
  lemma ProductBeforeManufacturer(line: string)
    requires StartsWith(line, "S:") && Contains(line, "Product=") && Contains(line, "Manufacturer=")
    ensures '=' in line
    ensures Classify(line) == SetAttr(ProductIs(AttrValue(line)))
  {
    ContainsChar(line, "Product=", '=');
    assert line[0] == line[..2][0] == 'S';
  }

  /** The attribute value is the text between the first and the second `=`
      (or the end of the line), trimmed. */
  lemma AttrValueBetween(before: string, value: string, rest: string)
    requires '=' !in before && '=' !in value
    requires rest == [] || rest[0] == '='
    ensures AttrValue(before + "=" + value + rest) == Strip(value)
  {
    PieceAfterFirst(before, value, rest, '=');
  }
}
