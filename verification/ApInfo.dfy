/** get_ap_info: a five-line description of the connected access point, built by five
    successive snprintf calls, and the parser that undoes it. */
module ApInfo {
  import opened CTypes
  import opened CText

  /** The fields of wifi_ap_record_t that are printed. */
  datatype ApRecord = ApRecord(ssid: string, bssid: seq<Byte>, rssi: int, primary: Byte)

  /** The widths of the C fields: a NUL-terminated SSID of at most 32 bytes, six address
      bytes, an int8_t and a uint8_t. */
  predicate Valid(ap: ApRecord) {
    |ap.ssid| <= 32 && NulFree(ap.ssid) && |ap.bssid| == 6 && -128 <= ap.rssi <= 127
  }

  type ValidAp = ap: ApRecord | Valid(ap) witness ApRecord("", [0, 0, 0, 0, 0, 0], 0, 0)

  const BUFFER_SIZE: nat := 200
  const TITLE := "      Connected AP Info:\n"

  /** %0X:%0X:... */
  function MacText(mac: seq<Byte>): string
    requires mac != []
  {
    if |mac| == 1 then Hex(mac[0])
    else MacText(mac[..|mac| - 1]) + ":" + Hex(mac[|mac| - 1])
  }

  // The lines without their ends.

  function SsidBody(ap: ApRecord): string {
    "SSID: " + ap.ssid
  }

  function MacBody(ap: ApRecord): string
    requires Valid(ap)
  {
    "MAC: " + MacText(ap.bssid)
  }

  function SignalBody(ap: ApRecord): string {
    "Signal: " + Dec(ap.rssi) + " -dbm"
  }

  function PrimaryBody(ap: ApRecord): string {
    "Primary: " + Dec(ap.primary)
  }

  function SsidLine(ap: ApRecord): string {
    SsidBody(ap) + "\n"
  }

  function MacLine(ap: ApRecord): string
    requires Valid(ap)
  {
    MacBody(ap) + "\n"
  }

  function SignalLine(ap: ApRecord): string {
    SignalBody(ap) + "\n"
  }

  function PrimaryLine(ap: ApRecord): string {
    PrimaryBody(ap) + "\n "
  }

  function Text(ap: ApRecord): string
    requires Valid(ap)
  {
    TITLE + SsidLine(ap) + MacLine(ap) + SignalLine(ap) + PrimaryLine(ap)
  }

  /** The six numbers of the MAC line. */
  lemma {:induction false} MacTextSpelled(m: seq<Byte>)
    requires |m| == 6
    ensures MacText(m) == Hex(m[0]) + ":" + Hex(m[1]) + ":" + Hex(m[2]) + ":" + Hex(m[3]) + ":" + Hex(m[4]) + ":" + Hex(m[5])
  {
    var m5, m4, m3, m2 := m[..5], m[..4], m[..3], m[..2];
    assert m5[..4] == m4 && m4[..3] == m3 && m3[..2] == m2 && m2[..1] == [m[0]];
    assert MacText(m2) == Hex(m[0]) + ":" + Hex(m[1]);
    assert MacText(m3) == MacText(m2) + ":" + Hex(m[2]);
    assert MacText(m4) == MacText(m3) + ":" + Hex(m[3]);
    assert MacText(m5) == MacText(m4) + ":" + Hex(m[4]);
  }

  /** The description from the record alone: the numbers are the only numerals of the six
      bytes in base 16, and of strength and channel in base 10, that have no leading zeros. */
  lemma {:induction false} TextExactly(ap: ApRecord, hex: seq<string>, rssi: string, primary: string)
    requires Valid(ap) && |hex| == 6 && forall k :: 0 <= k < 6 ==> Hexadecimal(hex[k], ap.bssid[k])
    requires Decimal(rssi, ap.rssi) && Decimal(primary, ap.primary)
    ensures Text(ap) ==
            "      Connected AP Info:\n" +
            ("SSID: " + ap.ssid + "\n") +
            ("MAC: " + (hex[0] + ":" + hex[1] + ":" + hex[2] + ":" + hex[3] + ":" + hex[4] + ":" + hex[5]) + "\n") +
            ("Signal: " + rssi + " -dbm" + "\n") +
            ("Primary: " + primary + "\n ")
  {
    forall k | 0 <= k < 6
      ensures hex[k] == Hex(ap.bssid[k])
    {
      HexExactly(ap.bssid[k], hex[k]);
    }
    MacTextSpelled(ap.bssid);
    DecExactly(ap.rssi, rssi);
    DecExactly(ap.primary, primary);
  }

  // ---------------------------------------------------------------- bounds

  lemma {:induction false} MacTextBound(mac: seq<Byte>)
    requires mac != []
    ensures |MacText(mac)| <= 3 * |mac| - 1 && NulFree(MacText(mac))
    ensures forall c :: c in MacText(mac) ==> IsDigit(c) || c == ':'
  {
    ByteLengths(mac[|mac| - 1]);
    if |mac| > 1 {
      MacTextBound(mac[..|mac| - 1]);
    }
  }

  lemma DecBound(i: int)
    requires -128 <= i <= 255
    ensures |Dec(i)| <= (if i < 0 then 4 else 3) && NulFree(Dec(i)) && '\n' !in Dec(i)
  {
    ByteLengths(if i < 0 then -i else i);
  }

  lemma LineBounds(ap: ApRecord)
    requires Valid(ap)
    ensures |TITLE| == 25 && |SsidLine(ap)| <= 39 && |MacLine(ap)| <= 23
    ensures |SignalLine(ap)| <= 18 && |PrimaryLine(ap)| <= 14
  {
    MacTextBound(ap.bssid);
    DecBound(ap.rssi);
    DecBound(ap.primary);
  }

  lemma MacBodyPlain(ap: ApRecord)
    requires Valid(ap)
    ensures NulFree(MacBody(ap)) && '\n' !in MacBody(ap)
  {
    MacTextBound(ap.bssid);
    assert NulFree("MAC: ") && '\n' !in "MAC: ";
  }

  lemma SignalBodyPlain(ap: ApRecord)
    requires Valid(ap)
    ensures NulFree(SignalBody(ap)) && '\n' !in SignalBody(ap)
  {
    DecBound(ap.rssi);
    assert NulFree("Signal: ") && NulFree(" -dbm") && '\n' !in "Signal: " && '\n' !in " -dbm";
  }

  lemma PrimaryBodyPlain(ap: ApRecord)
    ensures NulFree(PrimaryBody(ap)) && '\n' !in PrimaryBody(ap)
  {
    DecBound(ap.primary);
    assert NulFree("Primary: ") && '\n' !in "Primary: ";
  }

  lemma NulFreeConcat(s: string, t: string)
    ensures NulFree(s + t) <==> NulFree(s) && NulFree(t)
  {
  }

  lemma LinesNulFree(ap: ApRecord)
    requires Valid(ap)
    ensures NulFree(TITLE) && NulFree(SsidLine(ap)) && NulFree(MacLine(ap))
    ensures NulFree(SignalLine(ap)) && NulFree(PrimaryLine(ap))
  {
    MacBodyPlain(ap);
    SignalBodyPlain(ap);
    PrimaryBodyPlain(ap);
    assert NulFree("SSID: ") && NulFree("\n") && NulFree("\n ");
    NulFreeConcat(MacBody(ap), "\n");
    NulFreeConcat(SignalBody(ap), "\n");
    NulFreeConcat(PrimaryBody(ap), "\n ");
    NulFreeConcat(SsidBody(ap), "\n");
  }

  /** The running offset never passes 119, so no size argument underflows; and the text has
      no NUL of its own, so a C reader of the buffer sees all of it. */
  lemma TextBound(ap: ApRecord)
    requires Valid(ap)
    ensures |Text(ap)| <= 119 && NulFree(Text(ap))
  {
    LineBounds(ap);
    LinesNulFree(ap);
  }

  /** 119 is attained. */
  lemma TextBoundAttained()
    ensures exists ap :: Valid(ap) && |Text(ap)| == 119
  {
    var ap := ApRecord(seq(32, _ => 'x'), [255, 255, 255, 255, 255, 255], -128, 255);
    LineBounds(ap);
    var m := ap.bssid;
    assert |Hex(255)| == 2;
    assert |MacText(m[..2])| == 5 by { assert m[..2][..1] == m[..1]; }
    assert |MacText(m[..4])| == 11 by { assert m[..4][..3] == m[..3] && m[..3][..2] == m[..2]; }
    assert |MacText(m)| == 17 by { assert m[..5][..4] == m[..4]; }
    assert |Dec(-128)| == 4 && |Dec(255)| == 3;
    assert |Text(ap)| == 119;
  }

  // ---------------------------------------------------------------- reading it back

  /** `n` hexadecimal numbers separated by ':', from the end. */
  function ParseMac(s: string, n: nat): seq<nat>
    requires n > 0
    decreases n
  {
    if n == 1 then [DigitsValue(s, 16)]
    else
      var (before, last) := LastCut(s, ':');
      ParseMac(before, n - 1) + [DigitsValue(last, 16)]
  }

  /** The lines, cut off from the end because an SSID may itself contain line ends. */
  function Lines(text: string): (string, string, string, string) {
    var (upToPrimary, _) := LastCut(text, '\n');
    var (upToSignal, primary) := LastCut(upToPrimary, '\n');
    var (upToMac, signal) := LastCut(upToSignal, '\n');
    var (ssid, mac) := LastCut(upToMac, '\n');
    (ssid, mac, signal, primary)
  }

  function Middle(s: string, front: nat, back: nat): string {
    if |s| < front + back then "" else s[front..|s| - back]
  }

  function Parse(text: string): (string, seq<nat>, int, int) {
    var (ssid, mac, signal, primary) := Lines(text);
    (Middle(ssid, |TITLE| + 6, 0), ParseMac(Middle(mac, 5, 0), 6),
     DecValue(Middle(signal, 8, 5)), DecValue(Middle(primary, 9, 0)))
  }

  lemma LinesFound(title: string, ssid: string, mac: string, signal: string, primary: string)
    requires '\n' !in mac && '\n' !in signal && '\n' !in primary
    ensures Lines(title + (ssid + "\n") + (mac + "\n") + (signal + "\n") + (primary + "\n ")) ==
            (title + ssid, mac, signal, primary)
  {
    var upToMac := title + ssid + "\n" + mac;
    var upToSignal := upToMac + "\n" + signal;
    var upToPrimary := upToSignal + "\n" + primary;
    assert title + (ssid + "\n") + (mac + "\n") + (signal + "\n") + (primary + "\n ") == upToPrimary + "\n" + " ";
    LastCutFinds(upToPrimary, '\n', " ");
    LastCutFinds(upToSignal, '\n', primary);
    LastCutFinds(upToMac, '\n', signal);
    LastCutFinds(title + ssid, '\n', mac);
  }

  lemma MiddleFound(front: string, s: string, back: string)
    ensures Middle(front + s + back, |front|, |back|) == s
  {
  }

  lemma MacCut(front: seq<Byte>, last: Byte)
    requires front != []
    ensures LastCut(MacText(front + [last]), ':') == (MacText(front), Hex(last))
  {
    assert (front + [last])[..|front|] == front;
    assert MacText(front + [last]) == MacText(front) + [':'] + Hex(last);
    LastCutFinds(MacText(front), ':', Hex(last));
  }

  lemma {:induction false} MacReadsBack(mac: seq<Byte>)
    requires mac != []
    ensures ParseMac(MacText(mac), |mac|) == mac
    decreases |mac|
  {
    var front, last := mac[..|mac| - 1], mac[|mac| - 1];
    assert mac == front + [last];
    DigitsReadBack(last, 16);
    if front != [] {
      MacCut(front, last);
      MacReadsBack(front);
    }
  }

  lemma TextLines(ap: ApRecord)
    requires Valid(ap)
    ensures Lines(Text(ap)) == (TITLE + SsidBody(ap), MacBody(ap), SignalBody(ap), PrimaryBody(ap))
  {
    MacBodyPlain(ap);
    SignalBodyPlain(ap);
    PrimaryBodyPlain(ap);
    LinesFound(TITLE, SsidBody(ap), MacBody(ap), SignalBody(ap), PrimaryBody(ap));
  }

  lemma FieldsFound(ap: ApRecord)
    requires Valid(ap)
    ensures Middle(TITLE + SsidBody(ap), |TITLE| + 6, 0) == ap.ssid
    ensures Middle(MacBody(ap), 5, 0) == MacText(ap.bssid)
    ensures Middle(SignalBody(ap), 8, 5) == Dec(ap.rssi)
    ensures Middle(PrimaryBody(ap), 9, 0) == Dec(ap.primary)
  {
    MiddleFound(TITLE + "SSID: ", ap.ssid, "");
    MiddleFound("MAC: ", MacText(ap.bssid), "");
    MiddleFound("Signal: ", Dec(ap.rssi), " -dbm");
    MiddleFound("Primary: ", Dec(ap.primary), "");
  }

  /** The text is undone by the parser, unpadded address bytes and line ends inside the SSID
      notwithstanding. */
  lemma TextReadsBack(ap: ApRecord)
    requires Valid(ap)
    ensures Parse(Text(ap)) == (ap.ssid, ap.bssid, ap.rssi, ap.primary)
  {
    TextLines(ap);
    FieldsFound(ap);
    MacReadsBack(ap.bssid);
    DecReadBack(ap.rssi);
    DecReadBack(ap.primary);
  }

  /** Two access points are described alike only when all four printed fields agree. */
  lemma TextInjective(ap: ApRecord, other: ApRecord)
    requires Valid(ap) && Valid(other) && Text(ap) == Text(other)
    ensures ap == other
  {
    TextReadsBack(ap);
    TextReadsBack(other);
  }

  // ---------------------------------------------------------------- the code

  /** One append: `done` stands before `offset`, and then `done + line` before the sum. */
  method Append(info: array<char>, offset: nat, line: string, ghost done: string) returns (n: nat)
    requires offset + |line| < info.Length && info[..offset] == done
    modifies info
    ensures n == |line|
    ensures info[..offset + n] == done + line && info[offset + n] == NUL
  {
    PrintedAppends(info[..], offset, info.Length - offset, line);
    n := Snprintf(info, offset, info.Length - offset, line);
    assert info[..][..offset + n] == info[..offset + n];
  }

  lemma ReadsAs(w: string, text: string)
    requires |text| < |w| && w[..|text|] == text && w[|text|] == NUL && NulFree(text)
    ensures NUL in w && CStr(w) == text
  {
    CStrAt(w, |text|);
  }

  /** The five appends at the running offset; 200 - offset is the size each time. */
  method PrintLines(info: array<char>, title: Text, ssid: Text, mac: Text, signal: Text, primary: Text)
    requires |title| + |ssid| + |mac| + |signal| + |primary| < info.Length
    modifies info
    ensures NUL in info[..] && CStr(info[..]) == title + ssid + mac + signal + primary
  {
    var offset := 0;
    var n := Append(info, offset, title, "");
    offset := offset + n;
    n := Append(info, offset, ssid, title);
    offset := offset + n;
    n := Append(info, offset, mac, title + ssid);
    offset := offset + n;
    n := Append(info, offset, signal, title + ssid + mac);
    offset := offset + n;
    n := Append(info, offset, primary, title + ssid + mac + signal);
    ReadsAs(info[..], title + ssid + mac + signal + primary);
  }

  /** `found` is what esp_wifi_sta_get_ap_info delivered, None for an error; the literal ""
      is returned on both failures. */
  method GetApInfo(found: Option<ApRecord>, mallocOk: bool) returns (info: array<char>)
    requires found.Some? ==> Valid(found.value)
    ensures fresh(info) && NUL in info[..]
    ensures CStr(info[..]) == if found.Some? && mallocOk then Text(found.value) else ""
  {
    if found == None || !mallocOk {
      info := new char[1][NUL];
      assert info[..] == [NUL];
      return;
    }
    var ap := found.value;
    LineBounds(ap);
    LinesNulFree(ap);
    info := new char[BUFFER_SIZE];
    var m := ap.bssid;
    var title, ssid := "      Connected AP Info:\n", "SSID: " + ap.ssid + "\n";
    var address := Hex(m[0]) + ":" + Hex(m[1]) + ":" + Hex(m[2]) + ":" + Hex(m[3]) + ":" + Hex(m[4]) + ":" + Hex(m[5]);
    var mac := "MAC: " + address + "\n";
    var signal, primary := "Signal: " + Dec(ap.rssi) + " -dbm\n", "Primary: " + Dec(ap.primary) + "\n ";
    assert mac == MacLine(ap) by { MacTextSpelled(m); }
    assert ssid == SsidLine(ap) && title == TITLE;
    assert signal == SignalLine(ap);
    assert primary == PrimaryLine(ap);
    PrintLines(info, title, ssid, mac, signal, primary);
  }
}
