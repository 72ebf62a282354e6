/** mbedtls_strerror: a composite error code is split by masks and described, part by part,
    in the caller's buffer. */
module ErrorText {
  import opened Arithmetic
  import opened CTypes
  import opened CText

  // ---------------------------------------------------------------- masks

  const HIGH_MASK: nat := 0xFF80
  /** ~0xFF80 on a 32-bit int. */
  const LOW_MASK: nat := 0xFFFF_FFFF - 0xFF80

  function Pow2(k: nat): (p: nat)
    ensures p > 0
  {
    if k == 0 then 1 else 2 * Pow2(k - 1)
  }

  /** The lowest bit of both. */
  function Both(a: nat, b: nat): nat {
    if a % 2 == 1 && b % 2 == 1 then 1 else 0
  }

  /** Bitwise and, bit by bit. */
  function And(a: nat, b: nat): nat
    decreases a
  {
    if a == 0 || b == 0 then 0 else Both(a, b) + 2 * And(a / 2, b / 2)
  }

  function HighPart(code: nat): nat {
    And(code, HIGH_MASK)
  }

  function LowPart(code: nat): nat {
    And(code, LOW_MASK)
  }

  function Magnitude(ret: int): nat {
    if ret < 0 then -ret else ret
  }

  lemma {:induction false} AndStep(a: nat, b: nat, a2: nat, b2: nat)
    requires a2 == a / 2 && b2 == b / 2
    ensures And(a, b) == Both(a, b) + 2 * And(a2, b2)
  {
  }

  lemma OddHalves(a: nat, m: nat, n: nat, ones: nat)
    requires m + n == ones && ones % 2 == 1
    ensures ones / 2 == m / 2 + n / 2
    ensures Both(a, m) + Both(a, n) == Both(a, ones)
  {
  }

  /** Complementary masks share out what they cover together. */
  lemma {:induction false} AndSplit(a: nat, m: nat, n: nat, ones: nat, k: nat)
    requires m + n == ones && ones + 1 == Pow2(k)
    ensures And(a, m) + And(a, n) == And(a, ones)
    decreases k
  {
    if k > 0 {
      var a2, m2, n2, ones2 := a / 2, m / 2, n / 2, ones / 2;
      OddHalves(a, m, n, ones);
      AndSplit(a2, m2, n2, ones2, k - 1);
      AndStep(a, m, a2, m2);
      AndStep(a, n, a2, n2);
      AndStep(a, ones, a2, ones2);
    }
  }

  lemma {:induction false} AndLowOnes(a: nat, ones: nat, k: nat)
    requires ones + 1 == Pow2(k)
    ensures And(a, ones) == a % Pow2(k)
    decreases k
  {
    if k > 0 {
      AndLowOnes(a / 2, ones / 2, k - 1);
      AndStep(a, ones, a / 2, ones / 2);
      ModDouble(a, Pow2(k - 1));
    }
  }

  lemma Widths()
    ensures Pow2(7) == 0x80 && Pow2(16) == 0x1_0000 && Pow2(32) == 0x1_0000_0000
  {
    assert Pow2(16) == 256 * Pow2(8) && Pow2(24) == 256 * Pow2(16);
  }

  lemma {:induction false} ComplementSum(a: nat, m: nat, n: nat, ones: nat, k: nat)
    requires m + n == ones && a <= ones && ones + 1 == Pow2(k)
    ensures And(a, m) + And(a, n) == a
  {
    AndSplit(a, m, n, ones, k);
    AndLowOnes(a, ones, k);
    DivModUnique(a, Pow2(k), 0, a);
  }

  lemma {:induction false} HighPartValue(code: nat)
    ensures HighPart(code) == code % 0x1_0000 - code % 0x80
  {
    Widths();
    AndSplit(code, HIGH_MASK, 0x7F, 0xFFFF, 16);
    AndLowOnes(code, 0xFFFF, 16);
    AndLowOnes(code, 0x7F, 7);
  }

  /** The two masks split every code: bits 7 to 15 are the high part, everything else,
      bits above 15 included, the low part. */
  lemma {:induction false} MasksSplit(code: nat)
    requires code < 0x1_0000_0000
    ensures HighPart(code) + LowPart(code) == code
    ensures HighPart(code) == code % 0x1_0000 - code % 0x80
  {
    Widths();
    HighPartValue(code);
    ComplementSum(code, HIGH_MASK, LOW_MASK, 0xFFFF_FFFF, 32);
  }

  /** A module code and a low-level code added into one are recovered by the masks. */
  lemma MasksRecover(moduleCode: nat, low: nat)
    requires 1 <= moduleCode <= 511 && low < 128
    ensures HighPart(Magnitude(-(128 * moduleCode + low))) == 128 * moduleCode
    ensures LowPart(Magnitude(-(128 * moduleCode + low))) == low
  {
    var code := 128 * moduleCode + low;
    assert Magnitude(-code) == code;
    MasksSplit(code);
    DivModUnique(code, 128, moduleCode, low);
    DivModUnique(code, 0x1_0000, 0, code);
  }

  // ---------------------------------------------------------------- the message

  /** What the library was built with: the two tables of texts, whether the early return
      of MBEDTLS_SSL_TLS_C is compiled in, and the code it returns early on. */
  datatype Build = Build(high: map<nat, string>, low: map<nat, string>, sslTls: bool, fatalAlert: nat)

  ghost predicate Valid(b: Build) {
    && (forall e :: e in b.high ==> b.high[e] != "" && NulFree(b.high[e]))
    && (forall e :: e in b.low ==> b.low[e] != "" && NulFree(b.low[e]))
  }

  const UNKNOWN := "UNKNOWN ERROR CODE ("

  function Unknown(part: nat): string {
    UNKNOWN + Hex4(part) + ")"
  }

  function HighMessage(b: Build, code: nat): string {
    var part := HighPart(code);
    if part == 0 then "" else if part in b.high then b.high[part] else Unknown(part)
  }

  function LowMessage(b: Build, code: nat): string {
    var part := LowPart(code);
    if part == 0 then "" else if part in b.low then b.low[part] else Unknown(part)
  }

  predicate CutOff(b: Build, code: nat) {
    b.sslTls && HighPart(code) != 0 && HighPart(code) == b.fatalAlert
  }

  /** Both texts with the separator between them, or the only one there is. */
  function Joined(high: string, low: string, cut: bool): string {
    if cut || low == "" then high
    else if high == "" then low
    else high + " : " + low
  }

  /** How much of the joined text fits.  With room for the high text but not for the
      separator and one more character, the separator is not begun. */
  function Fitting(high: string, low: string, cut: bool, buflen: nat): nat
    requires buflen > 0
  {
    if !cut && high != "" && low != "" && |high| < buflen <= |high| + 4 then |high|
    else |Take(Joined(high, low, cut), buflen - 1)|
  }

  /** The message a large enough buffer receives. */
  function Ideal(b: Build, ret: int): string {
    var code := Magnitude(ret);
    Joined(HighMessage(b, code), LowMessage(b, code), CutOff(b, code))
  }

  function ShownLength(b: Build, ret: int, buflen: nat): nat
    requires buflen > 0
  {
    var code := Magnitude(ret);
    Fitting(HighMessage(b, code), LowMessage(b, code), CutOff(b, code), buflen)
  }

  predicate CInt(ret: int) {
    -0x8000_0000 < ret < 0x8000_0000
  }

  lemma MessageFacts(b: Build, code: nat)
    requires Valid(b)
    ensures NulFree(HighMessage(b, code)) && NulFree(LowMessage(b, code))
    ensures HighMessage(b, code) == "" <==> HighPart(code) == 0
    ensures LowMessage(b, code) == "" <==> LowPart(code) == 0
  {
  }

  /** The text of one part: its table entry, or its number. */
  function PartText(table: map<nat, string>, part: nat): string {
    if part in table then table[part] else "UNKNOWN ERROR CODE (" + Hex4(part) + ")"
  }

  /** The message of every code, from the numbers: the parts that are not zero, joined, except
      that the fatal-alert code drops the low one. */
  lemma MessageExactly(b: Build, ret: int)
    requires Valid(b) && CInt(ret)
    ensures var code := if ret < 0 then -ret else ret;
      var high := code % 0x1_0000 - code % 0x80;
      var low := code - high;
      Ideal(b, ret) ==
        if high == 0 then (if low == 0 then "" else PartText(b.low, low))
        else if low == 0 || (b.sslTls && high == b.fatalAlert) then PartText(b.high, high)
        else PartText(b.high, high) + " : " + PartText(b.low, low)
  {
    MasksSplit(Magnitude(ret));
    MessageFacts(b, Magnitude(ret));
  }

  /** The lengths at which a cut message may end: it fits with its NUL, and when both texts are
      due it does not end inside the separator or right behind it. */
  predicate MayEndAt(b: Build, ret: int, buflen: nat, n: nat) {
    var code := Magnitude(ret);
    var fatal := b.sslTls && HighPart(code) == b.fatalAlert;
    var high := |PartText(b.high, HighPart(code))|;
    && n < buflen && n <= |Ideal(b, ret)|
    && (HighPart(code) != 0 && LowPart(code) != 0 && !fatal ==> n <= high || n >= high + 4)
  }

  /** What is shown is as long as it may be. */
  lemma ShownLongest(b: Build, ret: int, buflen: nat, n: nat)
    requires Valid(b) && CInt(ret) && buflen > 0
    ensures MayEndAt(b, ret, buflen, ShownLength(b, ret, buflen))
    ensures MayEndAt(b, ret, buflen, n) ==> n <= ShownLength(b, ret, buflen)
  {
    MessageFacts(b, Magnitude(ret));
  }

  /** A reader of the buffer sees a prefix of the message, and sees the whole message exactly
      when the buffer is longer than it. */
  lemma WholeMessageExactly(b: Build, ret: int, w: string, start: nat, buflen: nat)
    requires Valid(b) && buflen > 0 && start + buflen <= |w|
    requires Holds(w, start, buflen, Take(Ideal(b, ret), ShownLength(b, ret, buflen)))
    ensures CStr(w[start..start + buflen]) <= Ideal(b, ret)
    ensures CStr(w[start..start + buflen]) == Ideal(b, ret) <==> |Ideal(b, ret)| < buflen
  {
    MessageFacts(b, Magnitude(ret));
    assert NulFree(" : ") && NulFree(Ideal(b, ret));
    HeldText(w, start, buflen, Take(Ideal(b, ret), ShownLength(b, ret, buflen)));
  }

  function Continued(first: string, low: string, buflen: nat): string
    requires |first| < buflen
  {
    if first == "" then Take(low, buflen - 1)
    else if buflen - |first| < 5 then first
    else first + " : " + Take(low, buflen - |first| - 4)
  }

  /** The text in the buffer as the code builds it up. */
  function Stepwise(high: string, low: string, cut: bool, buflen: nat): string
    requires buflen > 0
  {
    var first := Take(high, buflen - 1);
    if cut || low == "" then first else Continued(first, low, buflen)
  }

  lemma StepwiseClosedForm(high: string, low: string, cut: bool, buflen: nat)
    requires buflen > 0
    ensures Stepwise(high, low, cut, buflen) == Take(Joined(high, low, cut), Fitting(high, low, cut, buflen))
  {
  }

  /** What is shown, by the exits of the code. */
  lemma {:induction false} ShownCases(b: Build, ret: int, code: nat, buflen: nat, first: string, low: string, shown: string)
    requires Valid(b) && buflen > 0 && code == Magnitude(ret)
    requires first == Take(HighMessage(b, code), buflen - 1) && low == LowMessage(b, code)
    requires shown == Take(Ideal(b, ret), ShownLength(b, ret, buflen))
    ensures NulFree(first) && (HighPart(code) == 0 ==> first == "")
    ensures CutOff(b, code) || LowPart(code) == 0 ==> shown == first
    ensures !CutOff(b, code) && LowPart(code) != 0 ==> shown == Continued(first, low, buflen)
  {
    MessageFacts(b, code);
    StepwiseClosedForm(HighMessage(b, code), low, CutOff(b, code), buflen);
  }

  /** The sign of the code makes no difference. */
  lemma SignIrrelevant(b: Build, ret: int, buflen: nat)
    requires buflen > 0
    ensures Ideal(b, ret) == Ideal(b, -ret) && ShownLength(b, ret, buflen) == ShownLength(b, -ret, buflen)
  {
  }

  // ---------------------------------------------------------------- reading a code back

  function ReadUnknown(s: string): nat {
    if |s| < |UNKNOWN| + 1 then 0 else DigitsValue(s[|UNKNOWN|..|s| - 1], 16)
  }

  /** The code that an all-unknown message stands for: the sum of the numbers printed on
      either side of the last ':'. */
  function ReadCode(s: string): nat {
    if ':' in s then
      var (before, after) := LastCut(s, ':');
      ReadUnknown(if before == "" then "" else before[..|before| - 1])
      + ReadUnknown(if after == "" then "" else after[1..])
    else ReadUnknown(s)
  }

  lemma UnknownReadsBack(part: nat)
    ensures ReadUnknown(Unknown(part)) == part && ':' !in Unknown(part)
  {
    Hex4ReadBack(part);
    var s := Unknown(part);
    assert s[|UNKNOWN|..|s| - 1] == Hex4(part);
    assert ':' !in UNKNOWN && ':' !in ")";
  }

  lemma PairReadsBack(high: nat, low: nat)
    ensures ReadCode(Unknown(high) + " : " + Unknown(low)) == high + low
  {
    UnknownReadsBack(high);
    UnknownReadsBack(low);
    var before, after := Unknown(high) + " ", " " + Unknown(low);
    var s := before + [':'] + after;
    assert Unknown(high) + " : " + Unknown(low) == s;
    assert ':' in s by { assert s[|before|] == ':'; }
    assert ':' !in " ";
    LastCutFinds(before, ':', after);
    assert before[..|before| - 1] == Unknown(high) && after[1..] == Unknown(low);
  }

  /** A code with no text for either of its parts is printed without loss: the message
      determines its magnitude, however many bits it has above the sixteenth. */
  lemma UnknownCodeReadsBack(b: Build, ret: int)
    requires CInt(ret) && ret != 0
    requires HighPart(Magnitude(ret)) !in b.high && LowPart(Magnitude(ret)) !in b.low
    requires HighPart(Magnitude(ret)) != 0 ==> !(b.sslTls && HighPart(Magnitude(ret)) == b.fatalAlert)
    ensures ReadCode(Ideal(b, ret)) == Magnitude(ret)
  {
    var code := Magnitude(ret);
    var high, low := HighPart(code), LowPart(code);
    MasksSplit(code);
    UnknownReadsBack(high);
    UnknownReadsBack(low);
    if high != 0 && low != 0 {
      PairReadsBack(high, low);
    } else {
      assert Ideal(b, ret) == Unknown(code);
    }
  }

  // ---------------------------------------------------------------- the code

  method HighLevelStrerr(b: Build, errorCode: int) returns (text: Option<string>)
    requires CInt(errorCode)
    ensures var part := HighPart(Magnitude(errorCode));
      text == if part in b.high then Some(b.high[part]) else None
  {
    var code := errorCode;
    if code < 0 {
      code := -code;
    }
    var part := And(code, HIGH_MASK);
    text := if part in b.high then Some(b.high[part]) else None;
  }

  method LowLevelStrerr(b: Build, errorCode: int) returns (text: Option<string>)
    requires CInt(errorCode)
    ensures var part := LowPart(Magnitude(errorCode));
      text == if part in b.low then Some(b.low[part]) else None
  {
    var code := errorCode;
    if code < 0 {
      code := -code;
    }
    var part := And(code, LOW_MASK);
    text := if part in b.low then Some(b.low[part]) else None;
  }

  lemma FilledAgain(w: string, v: string, r: string, start: nat, room: nat, msg: string, longer: string)
    requires start + room <= |w| && Filled(w, v, start, room, msg) && Filled(v, r, start, room, longer)
    ensures Filled(w, r, start, room, longer)
  {
  }

  /** memset(buf + at, 0, size) */
  method Memset0(buf: array<char>, at: nat, size: nat)
    requires at + size <= buf.Length
    modifies buf
    ensures Filled(old(buf[..]), buf[..], at, size, "")
  {
    for end := at to at + size
      invariant forall i :: at <= i < end ==> buf[i] == NUL
      invariant forall i :: 0 <= i < at || end <= i < buf.Length ==> buf[i] == old(buf[i])
    {
      buf[end] := NUL;
    }
  }

  /** One translated part goes into the buffer, behind `msg`. */
  method Describe(text: Option<string>, part: nat, buf: array<char>, at: nat, room: nat,
                  ghost message: string, ghost start: nat, ghost buflen: nat, ghost msg: string)
    requires message == if text == None then Unknown(part) else text.value
    requires start + buflen <= buf.Length && |msg| < buflen && Holds(buf[..], start, buflen, msg)
    requires at == start + |msg| && room == buflen - |msg|
    modifies buf
    ensures Filled(old(buf[..]), buf[..], start, buflen, msg + Take(message, room - 1))
  {
    if text == None {
      PrintBehind(buf, at, room, "UNKNOWN ERROR CODE (" + Hex4(part) + ")", start, buflen, msg);
    } else {
      PrintBehind(buf, at, room, text.value, start, buflen, msg);
    }
  }

  /** The separator behind the `first` text, when there is one and there is room: `at` and
      `room` are then the moved pointer and the shrunk length. */
  method Separate(buf: array<char>, start: nat, buflen: nat, ghost first: string)
    returns (full: bool, at: nat, room: nat, ghost msg: string)
    requires start + buflen <= buf.Length
    requires NulFree(first) && |first| < buflen && Holds(buf[..], start, buflen, first)
    modifies buf
    ensures full == (first != "" && buflen - |first| < 5)
    ensures msg == if full || first == "" then first else first + " : "
    ensures Filled(old(buf[..]), buf[..], start, buflen, msg)
    ensures |msg| < buflen && at == start + |msg| && room == buflen - |msg|
  {
    msg := first;
    HeldText(buf[..], start, buflen, first);
    assert buf[..][start..start + buflen] == buf[start..start + buflen];
    var len := Strlen(buf, start, buflen);
    assert len == |first| by { assert |buf[start..start + len]| == len; }
    full, at, room := false, start + len, buflen - len;
    if len > 0 {
      full := buflen - len < 5;
      if !full {
        PrintBehind(buf, start + len, buflen - len, " : ", start, buflen, first);
        msg := first + " : ";
        assert Take(" : ", buflen - |first| - 1) == " : ";
        at := at + 3;
        room := room - 3;
      }
    }
  }

  method DescribeHigh(b: Build, ret: nat, buf: array<char>, start: nat, buflen: nat)
    requires CInt(ret) && HighPart(ret) != 0 && 0 < buflen && start + buflen <= buf.Length
    requires Holds(buf[..], start, buflen, "")
    modifies buf
    ensures Filled(old(buf[..]), buf[..], start, buflen, Take(HighMessage(b, ret), buflen - 1))
  {
    var text := HighLevelStrerr(b, ret);
    ghost var high := HighMessage(b, ret);
    Describe(text, HighPart(ret), buf, start, buflen, high, start, buflen, "");
    assert "" + Take(high, buflen - 1) == Take(high, buflen - 1);
  }

  /** The low part, behind the `first` text and the separator. */
  method DescribeLow(b: Build, ret: nat, buf: array<char>, start: nat, buflen: nat, ghost first: string)
    requires CInt(ret) && LowPart(ret) != 0 && start + buflen <= buf.Length
    requires NulFree(first) && |first| < buflen && Holds(buf[..], start, buflen, first)
    modifies buf
    ensures Filled(old(buf[..]), buf[..], start, buflen, Continued(first, LowMessage(b, ret), buflen))
  {
    ghost var w := buf[..];
    var full, at, room, msg := Separate(buf, start, buflen, first);
    if full {
      return;
    }
    ghost var v := buf[..];
    var text := LowLevelStrerr(b, ret);
    ghost var low := LowMessage(b, ret);
    Describe(text, LowPart(ret), buf, at, room, low, start, buflen, msg);
    assert msg + Take(low, room - 1) == Continued(first, low, buflen);
    FilledAgain(w, v, buf[..], start, buflen, msg, Continued(first, low, buflen));
  }

  /** The buffer is buf[start..start + buflen]. */
  method Strerror(b: Build, errorCode: int, buf: array<char>, start: nat, buflen: nat)
    requires Valid(b) && CInt(errorCode)
    requires start + buflen <= buf.Length
    modifies buf
    ensures if buflen == 0 then buf[..] == old(buf[..])
            else Filled(old(buf[..]), buf[..], start, buflen, Take(Ideal(b, errorCode), ShownLength(b, errorCode, buflen)))
  {
    if buflen == 0 {
      return;
    }
    ghost var w := buf[..];
    Memset0(buf, start, buflen);
    ghost var v := buf[..];
    var ret := errorCode;
    if ret < 0 {
      ret := -ret;
    }
    ghost var low := LowMessage(b, ret);
    ghost var first := Take(HighMessage(b, ret), buflen - 1);
    ghost var shown := Take(Ideal(b, errorCode), ShownLength(b, errorCode, buflen));
    ShownCases(b, errorCode, ret, buflen, first, low, shown);
    if HighPart(ret) != 0 {
      DescribeHigh(b, ret, buf, start, buflen);
      FilledAgain(w, v, buf[..], start, buflen, "", first);
      v := buf[..];
      if b.sslTls && HighPart(ret) == b.fatalAlert {
        return;
      }
    }
    assert Filled(w, v, start, buflen, first);
    if LowPart(ret) == 0 {
      return;
    }
    DescribeLow(b, ret, buf, start, buflen, first);
    FilledAgain(w, v, buf[..], start, buflen, first, Continued(first, low, buflen));
    assert Filled(w, buf[..], start, buflen, shown);
  }
}
