/** wifi_scan_ap: the scan result as the list sent to the page, and the page's loop over it. */
module WifiScan {
  import opened CText

  const DEFAULT_SCAN_LIST_SIZE: nat := 20

  datatype Quality = Bad | NotBad | Good
  datatype Band = Band24 | Band5

  datatype Record = Record(ssid: string, rssi: int, primary: nat)

  datatype Item =
    | Header(stations: nat)
    | Network(ssid: string, rssi: int, quality: Quality, band: Band)

  /** ap_info after the driver filled it, and the number of networks it reported, which may
      exceed the array. */
  datatype RawScan = RawScan(records: seq<Record>, apCount: nat)
  type Scan = s: RawScan | |s.records| == DEFAULT_SCAN_LIST_SIZE
    witness RawScan(seq(DEFAULT_SCAN_LIST_SIZE, _ => Record("", 0, 0)), 0)

  function Label(rssi: int): Quality {
    if rssi > -30 then Good else if rssi > -70 then NotBad else Bad
  }

  function BandOf(primary: nat): Band {
    if primary < 14 then Band24 else Band5
  }

  function Rank(q: Quality): nat {
    match q case Bad => 0 case NotBad => 1 case Good => 2
  }

  function Entry(r: Record): Item {
    Network(CStr(r.ssid), r.rssi, Label(r.rssi), BandOf(r.primary))
  }

  function Listing(records: seq<Record>, apCount: nat): (items: seq<Item>)
    requires |records| == DEFAULT_SCAN_LIST_SIZE
  {
    var n := if apCount < DEFAULT_SCAN_LIST_SIZE then apCount else DEFAULT_SCAN_LIST_SIZE;
    [Header(apCount)] + seq(n, i requires 0 <= i < n => Entry(records[i]))
  }

  method WifiScanAp(records: array<Record>, apCount: nat) returns (items: seq<Item>)
    requires records.Length == DEFAULT_SCAN_LIST_SIZE
    ensures items == Listing(records[..], apCount)
  {
    items := [Header(apCount)];
    var i := 0;
    while i < DEFAULT_SCAN_LIST_SIZE && i < apCount
      invariant 0 <= i <= DEFAULT_SCAN_LIST_SIZE && i <= apCount
      invariant |items| == i + 1 && items[0] == Header(apCount)
      invariant forall k :: 0 <= k < i ==> items[k + 1] == Entry(records[k])
    {
      var r := records[i];
      var quality;
      if r.rssi > -30 {
        quality := Good;
      } else if r.rssi > -70 {
        quality := NotBad;
      } else {
        quality := Bad;
      }
      var band;
      if r.primary < 14 {
        band := Band24;
      } else {
        band := Band5;
      }
      items := items + [Network(CStr(r.ssid), r.rssi, quality, band)];
      i := i + 1;
    }
  }

  /** The whole list, from the records: how many entries it has, the thresholds of the label
      and the channels of the band. */
  lemma EntriesExactly(records: seq<Record>, apCount: nat)
    requires |records| == DEFAULT_SCAN_LIST_SIZE
    ensures var items := Listing(records, apCount);
      && |items| == 1 + (if apCount <= 20 then apCount else 20) && items[0] == Header(apCount)
      && forall k :: 1 <= k < |items| ==>
        && items[k].Network?
        && items[k].ssid == CStr(records[k - 1].ssid) && items[k].rssi == records[k - 1].rssi
        && (items[k].quality == Good <==> records[k - 1].rssi > -30)
        && (items[k].quality == Bad <==> records[k - 1].rssi <= -70)
        && (items[k].band == Band24 <==> records[k - 1].primary < 14)
  {
  }

  /** A stronger signal never gets a worse label. */
  lemma LabelMonotone(weak: int, strong: int)
    requires weak <= strong
    ensures Rank(Label(weak)) <= Rank(Label(strong))
  {
  }

  predicate PageReads(apCount: nat, i: int) {
    1 <= i < apCount
  }

  /** The page's loop reads entries 1 .. n_station - 1.  All of them exist exactly when at
      most 21 networks were reported, although the array holds 20. */
  lemma PageIndicesInBounds(records: seq<Record>, apCount: nat)
    requires |records| == DEFAULT_SCAN_LIST_SIZE
    ensures (forall i :: PageReads(apCount, i) ==> i < |Listing(records, apCount)|) <==> apCount <= 21
  {
    assert apCount > 21 ==> PageReads(apCount, 21);
  }

  /** The page shows every network it was sent exactly when it was sent none, or when more were
      reported than the array holds.  With 1 to 20 networks it shows all but the last. */
  lemma PageDropsLastExactly(records: seq<Record>, apCount: nat)
    requires |records| == DEFAULT_SCAN_LIST_SIZE
    ensures (forall i :: 1 <= i < |Listing(records, apCount)| ==> PageReads(apCount, i)) <==> apCount == 0 || apCount > 20
    ensures 1 <= apCount <= 20 ==>
      && |Listing(records, apCount)| == apCount + 1
      && (forall i :: 1 <= i < |Listing(records, apCount)| ==> (PageReads(apCount, i) <==> i != apCount))
      && Listing(records, apCount)[apCount] == Entry(records[apCount - 1])
  {
    assert !PageReads(apCount, apCount);
  }
}
