/** Integer widths and the optional value shared by every module. */
module CTypes {
  datatype Option<+T> = None | Some(value: T)

  /** uint8_t */
  type Byte = x: int | 0 <= x < 0x100

  /** uint32_t */
  type Word = x: int | 0 <= x < 0x1_0000_0000
}

/** C text: NUL-terminated strings, the integer conversions of the printf family, and
    snprintf (section 7.19.6.5 of ISO/IEC 9899:1999).  A `char` stands for one C char. */
module CText {
  import opened Arithmetic

  const NUL: char := '\0'

  predicate NulFree(s: string) {
    NUL !in s
  }

  /** The value of a char * argument. */
  type Text = s: string | NulFree(s) witness ""

  /** What a C reader sees of the bytes `s`: everything before the first NUL. */
  function CStr(s: string): (r: string)
    ensures NulFree(r) && r <= s
    ensures |r| < |s| ==> s[|r|] == NUL
    ensures NulFree(s) ==> r == s
  {
    if s == "" || s[0] == NUL then "" else [s[0]] + CStr(s[1..])
  }

  /** At most the first `n` characters. */
  function Take(s: string, n: nat): (r: string)
    ensures r <= s && |r| == if |s| < n then |s| else n
  {
    if |s| <= n then s else s[..n]
  }

  // ---------------------------------------------------------------- conversions

  function Digit(d: nat): char
    requires d < 16
  {
    if d < 10 then '0' + d as char else 'A' + (d - 10) as char
  }

  predicate IsDigit(c: char) {
    '0' <= c <= '9' || 'A' <= c <= 'F'
  }

  function DigitValue(c: char): nat {
    if '0' <= c <= '9' then c as int - '0' as int
    else if 'A' <= c <= 'F' then 10 + c as int - 'A' as int
    else 0
  }

  /** Positional notation without leading zeros; "0" for zero. */
  function Digits(n: nat, base: nat): (s: string)
    requires 2 <= base <= 16
    ensures s != ""
    ensures forall c :: c in s ==> IsDigit(c)
    decreases n
  {
    if n < base then [Digit(n)]
    else
      DivSmaller(n, base);
      Digits(n / base, base) + [Digit(n % base)]
  }

  function DigitsValue(s: string, base: nat): nat
    decreases |s|
  {
    if s == "" then 0 else DigitsValue(s[..|s| - 1], base) * base + DigitValue(s[|s| - 1])
  }

  /** %0X: the zero flag without a width pads nothing. */
  function Hex(n: nat): string {
    Digits(n, 16)
  }

  /** %04X */
  function Hex4(n: nat): string {
    var s := Digits(n, 16);
    (if |s| < 4 then seq(4 - |s|, _ => '0') else "") + s
  }

  /** %d */
  function Dec(i: int): string {
    if i < 0 then "-" + Digits(-i, 10) else Digits(i, 10)
  }

  function DecValue(s: string): int {
    if s != "" && s[0] == '-' then 0 - DigitsValue(s[1..], 10) else DigitsValue(s, 10)
  }

  lemma {:induction false} DigitsReadBack(n: nat, base: nat)
    requires 2 <= base <= 16
    ensures DigitsValue(Digits(n, base), base) == n
    decreases n
  {
    var s := Digits(n, base);
    if n < base {
      assert s[..0] == "";
    } else {
      DivSmaller(n, base);
      assert s[..|s| - 1] == Digits(n / base, base);
      DigitsReadBack(n / base, base);
    }
  }

  lemma {:induction false} LeadingZeros(z: string, s: string, base: nat)
    requires forall c :: c in z ==> c == '0'
    ensures DigitsValue(z + s, base) == DigitsValue(s, base)
    decreases |z| + |s|
  {
    if s != "" {
      assert (z + s)[..|z + s| - 1] == z + s[..|s| - 1];
      LeadingZeros(z, s[..|s| - 1], base);
    } else if z != "" {
      var y := z[..|z| - 1];
      assert z[|z| - 1] in z && forall c :: c in y ==> c in z;
      assert z == y + ['0'];
      LeadingZeros(y, "", base);
      assert z + s == z && y + "" == y;
    }
  }

  /** A numeral without leading zeros, "0" for zero. */
  predicate Canonical(s: string, base: nat) {
    && s != "" && (|s| > 1 ==> s[0] != '0')
    && forall k :: 0 <= k < |s| ==> IsDigit(s[k]) && DigitValue(s[k]) < base
  }

  lemma {:induction false} DigitsCanonical(n: nat, base: nat)
    requires 2 <= base <= 16
    ensures Canonical(Digits(n, base), base)
    ensures n > 0 ==> Digits(n, base)[0] != '0'
    decreases n
  {
    if n >= base {
      DivSmaller(n, base);
      assert n / base > 0;
      DigitsCanonical(n / base, base);
    }
  }

  lemma {:induction false} DigitsValuePositive(s: string, base: nat)
    requires base > 0 && s != "" && s[0] != '0' && forall k :: 0 <= k < |s| ==> IsDigit(s[k])
    ensures DigitsValue(s, base) > 0
    decreases |s|
  {
    if |s| > 1 {
      DigitsValuePositive(s[..|s| - 1], base);
      MulAtLeast(base, DigitsValue(s[..|s| - 1], base));
    }
  }

  lemma {:induction false} DigitsSnoc(v: nat, d: nat, base: nat)
    requires 2 <= base <= 16 && v > 0 && d < base
    ensures Digits(v * base + d, base) == Digits(v, base) + [Digit(d)]
  {
    MulAtLeast(base, v);
    DivModUnique(v * base + d, base, v, d);
  }

  lemma DigitOfValue(c: char, base: nat)
    requires base <= 16 && IsDigit(c) && DigitValue(c) < base
    ensures Digit(DigitValue(c)) == c
  {
  }

  lemma CanonicalFront(s: string, base: nat)
    requires |s| > 1 && Canonical(s, base)
    ensures Canonical(s[..|s| - 1], base) && s[0] != '0'
  {
  }

  lemma {:induction false} SingleDigit(s: string, base: nat)
    requires 2 <= base <= 16 && |s| == 1 && IsDigit(s[0]) && DigitValue(s[0]) < base
    ensures s == Digits(DigitsValue(s, base), base)
  {
    DigitOfValue(s[0], base);
    assert s[..0] == "" && DigitsValue("", base) * base == 0;
  }

  lemma {:induction false} CanonicalIsDigits(s: string, base: nat)
    requires 2 <= base <= 16 && Canonical(s, base)
    ensures s == Digits(DigitsValue(s, base), base)
    decreases |s|
  {
    var front, last := s[..|s| - 1], s[|s| - 1];
    DigitOfValue(last, base);
    if |s| == 1 {
      SingleDigit(s, base);
    } else {
      CanonicalFront(s, base);
      CanonicalIsDigits(front, base);
      DigitsValuePositive(front, base);
      DigitsSnoc(DigitsValue(front, base), DigitValue(last), base);
      assert s == front + [last];
    }
  }

  /** Digits(n, base) is the only numeral of `n` without leading zeros. */
  lemma {:induction false} DigitsExactly(n: nat, base: nat, s: string)
    requires 2 <= base <= 16
    ensures s == Digits(n, base) <==> Canonical(s, base) && DigitsValue(s, base) == n
  {
    DigitsReadBack(n, base);
    DigitsCanonical(n, base);
    if Canonical(s, base) {
      CanonicalIsDigits(s, base);
    }
  }

  /** What %0X has to print: without a width the flag pads nothing. */
  predicate Hexadecimal(s: string, n: nat) {
    Canonical(s, 16) && DigitsValue(s, 16) == n
  }

  /** What %d has to print: the sign of a negative number, and no leading zeros. */
  predicate Decimal(s: string, i: int) {
    if i < 0 then s != "" && s[0] == '-' && Canonical(s[1..], 10) && DigitsValue(s[1..], 10) == -i
    else Canonical(s, 10) && DigitsValue(s, 10) == i
  }

  lemma HexExactly(n: nat, s: string)
    ensures s == Hex(n) <==> Hexadecimal(s, n)
  {
    DigitsExactly(n, 16, s);
  }

  lemma {:induction false} DecExactly(i: int, s: string)
    ensures s == Dec(i) <==> Decimal(s, i)
  {
    if i < 0 {
      assert s != "" && s[0] == '-' ==> s == "-" + s[1..];
      assert Dec(i)[1..] == Digits(-i, 10);
      DigitsExactly(-i, 10, if s == "" then s else s[1..]);
    } else {
      DigitsExactly(i, 10, s);
    }
  }

  /** Cuts a numeral behind its leading zeros. */
  lemma {:induction false} Stripped(s: string, base: nat) returns (z: string, t: string)
    requires s != "" && forall k :: 0 <= k < |s| ==> IsDigit(s[k]) && DigitValue(s[k]) < base
    ensures s == z + t && Canonical(t, base)
    ensures forall k :: 0 <= k < |z| ==> z[k] == '0'
    decreases |s|
  {
    if |s| > 1 && s[0] == '0' {
      z, t := Stripped(s[1..], base);
      z := ['0'] + z;
      assert s == [s[0]] + s[1..];
    } else {
      z, t := "", s;
    }
  }

  /** The %04X text of every value, however wide, reads back as that value, and has at
      least four digits. */
  lemma Hex4ReadBack(n: nat)
    ensures DigitsValue(Hex4(n), 16) == n
    ensures |Hex4(n)| >= 4 && forall c :: c in Hex4(n) ==> IsDigit(c)
  {
    var s := Digits(n, 16);
    DigitsReadBack(n, 16);
    if |s| < 4 {
      var z := seq(4 - |s|, _ => '0');
      LeadingZeros(z, s, 16);
      assert Hex4(n) == z + s;
    } else {
      assert Hex4(n) == s;
    }
  }

  lemma {:induction false} Hex4Unique(n: nat, s: string)
    requires |s| >= 4 && (|s| > 4 ==> s[0] != '0')
    requires (forall k :: 0 <= k < |s| ==> IsDigit(s[k])) && DigitsValue(s, 16) == n
    ensures s == Hex4(n)
  {
    var z, t := Stripped(s, 16);
    LeadingZeros(z, t, 16);
    DigitsExactly(n, 16, t);
    assert z != "" ==> s[0] == '0';
    assert z == seq(|z|, _ => '0');
  }

  /** What %04X prints: the only numeral of the value with at least four digits, and leading
      zeros only as far as four digits need them. */
  lemma {:induction false} Hex4Exactly(n: nat, s: string)
    ensures s == Hex4(n) <==>
      && |s| >= 4 && (|s| > 4 ==> s[0] != '0')
      && (forall k :: 0 <= k < |s| ==> IsDigit(s[k])) && DigitsValue(s, 16) == n
  {
    Hex4ReadBack(n);
    DigitsCanonical(n, 16);
    if |s| >= 4 && (|s| > 4 ==> s[0] != '0') && (forall k :: 0 <= k < |s| ==> IsDigit(s[k])) && DigitsValue(s, 16) == n {
      Hex4Unique(n, s);
    }
  }

  /** %d followed by its inverse is the identity, sign included. */
  lemma DecReadBack(i: int)
    ensures DecValue(Dec(i)) == i
  {
    DigitsReadBack(if i < 0 then -i else i, 10);
    if i >= 0 {
      assert Digits(i, 10)[0] in Digits(i, 10);
    }
  }

  lemma ByteLengths(n: nat)
    requires n < 256
    ensures |Digits(n, 16)| <= 2 && |Digits(n, 10)| <= 3
  {
    assert n / 16 < 16 && n / 10 / 10 < 10;
    assert |Digits(n / 10 / 10, 10)| == 1;
  }

  // ---------------------------------------------------------------- cutting at the last separator

  /** The text before the last `sep`, and the text after it. */
  function LastCut(s: string, sep: char): (string, string)
    decreases |s|
  {
    if s == "" then ("", "")
    else if s[|s| - 1] == sep then (s[..|s| - 1], "")
    else
      var (before, after) := LastCut(s[..|s| - 1], sep);
      (before, after + [s[|s| - 1]])
  }

  lemma {:induction false} LastCutFinds(a: string, sep: char, b: string)
    requires sep !in b
    ensures LastCut(a + [sep] + b, sep) == (a, b)
    decreases |b|
  {
    var s := a + [sep] + b;
    if b == "" {
      assert s[..|s| - 1] == a;
    } else {
      var b' := b[..|b| - 1];
      assert b == b' + [b[|b| - 1]] && s[|s| - 1] == b[|b| - 1];
      assert s[..|s| - 1] == a + [sep] + b';
      LastCutFinds(a, sep, b');
    }
  }

  // ---------------------------------------------------------------- buffers

  lemma {:induction false} CStrAt(s: string, n: nat)
    requires n < |s| && s[n] == NUL && NulFree(s[..n])
    ensures CStr(s) == s[..n]
    decreases n
  {
  }

  /** The buffer `w` after snprintf(w + at, size, ...) has produced `text`: at most size - 1
      characters and a NUL are written, and nothing when size is 0. */
  function Printed(w: string, at: nat, size: nat, text: string): (r: string)
    requires at + size <= |w|
    ensures |r| == |w|
  {
    if size == 0 then w
    else
      var end := at + |Take(text, size - 1)|;
      seq(|w|, i requires 0 <= i < |w| =>
        if at <= i < end then text[i - at] else if i == end then NUL else w[i])
  }

  /** snprintf(buf + at, size, ...), where `text` is the formatted result; the length
      returned is the untruncated one. */
  method Snprintf(buf: array<char>, at: nat, size: nat, text: string) returns (n: nat)
    requires at + size <= buf.Length
    modifies buf
    ensures n == |text|
    ensures buf[..] == Printed(old(buf[..]), at, size, text)
  {
    if size > 0 {
      ghost var w := buf[..];
      var end := at;
      while end - at < |text| && end - at < size - 1
        invariant at <= end <= at + |Take(text, size - 1)|
        invariant forall i :: 0 <= i < buf.Length ==> buf[i] == if at <= i < end then text[i - at] else w[i]
      {
        buf[end] := text[end - at];
        end := end + 1;
      }
      buf[end] := NUL;
      assert end == at + |Take(text, size - 1)|;
      assert forall i :: 0 <= i < |w| ==> buf[..][i] == Printed(w, at, size, text)[i];
    }
    n := |text|;
  }

  /** The cut text and one NUL replace as many characters, and all others stay. */
  lemma {:induction false} PrintedExactly(w: string, at: nat, size: nat, text: string)
    requires at + size <= |w|
    ensures size == 0 ==> Printed(w, at, size, text) == w
    ensures size > 0 ==>
      var shown := if |text| < size then text else text[..size - 1];
      Printed(w, at, size, text) == w[..at] + shown + [NUL] + w[at + |shown| + 1..]
  {
  }

  /** A text that fits is appended to whatever stands before `at`. */
  lemma PrintedAppends(w: string, at: nat, size: nat, text: string)
    requires at + size <= |w| && |text| < size
    ensures var r := Printed(w, at, size, text);
      r[..at + |text|] == w[..at] + text && r[at + |text|] == NUL
  {
  }

  /** From `start` on, `room` characters of `w` are `msg` followed by zeros only. */
  ghost predicate Holds(w: string, start: nat, room: nat, msg: string)
    requires start + room <= |w|
  {
    && |msg| <= room
    && forall i :: start <= i < start + room ==> w[i] == if i - start < |msg| then msg[i - start] else NUL
  }

  /** From `w` to `r` nothing changed outside the region, which now holds `msg`. */
  ghost predicate Filled(w: string, r: string, start: nat, room: nat, msg: string)
    requires start + room <= |w|
  {
    && |r| == |w| && Holds(r, start, room, msg)
    && forall i :: 0 <= i < start || start + room <= i < |w| ==> r[i] == w[i]
  }

  /** snprintf(buf + at, size, ...) directly behind `msg` in a region of `room` characters. */
  method PrintBehind(buf: array<char>, at: nat, size: nat, text: string,
                     ghost start: nat, ghost room: nat, ghost msg: string)
    requires start + room <= buf.Length && |msg| < room && Holds(buf[..], start, room, msg)
    requires at == start + |msg| && size == room - |msg|
    modifies buf
    ensures Filled(old(buf[..]), buf[..], start, room, msg + Take(text, size - 1))
  {
    var _ := Snprintf(buf, at, size, text);
  }

  /** A region holding a NUL-free message shorter than itself reads, as C text, as it. */
  lemma HeldText(w: string, start: nat, room: nat, msg: string)
    requires start + room <= |w| && |msg| < room && Holds(w, start, room, msg) && NulFree(msg)
    ensures NUL in w[start..start + room] && CStr(w[start..start + room]) == msg
  {
    var z := w[start..start + room];
    assert z[|msg|] == w[start + |msg|] == NUL;
    assert z[..|msg|] == msg;
    CStrAt(z, |msg|);
  }

  /** snprintf into a fresh buffer of `size` characters, read back as C text. */
  method FormatText(size: nat, text: Text) returns (s: Text)
    requires size > 0
    ensures s == Take(text, size - 1)
  {
    var buf := new char[size];
    var _ := Snprintf(buf, 0, size, text);
    s := CStr(buf[..]);
    ghost var shown := Take(text, size - 1);
    assert buf[..][..|shown|] == shown && buf[..][|shown|] == NUL;
    CStrAt(buf[..], |shown|);
  }

  lemma {:induction false} CStrOfSlice(w: string, at: nat, room: nat, n: nat)
    requires at + room <= |w| && n < room && w[at + n] == NUL
    requires forall k :: at <= k < at + n ==> w[k] != NUL
    ensures NulFree(w[at..at + n]) && w[at..at + n] == CStr(w[at..at + room])
  {
    var z := w[at..at + room];
    assert z[n] == w[at + n];
    assert w[at..at + n] == z[..n];
    CStrAt(z, n);
  }

  /** strlen(buf + at), where `room` characters from `at` are known to hold a NUL. */
  method Strlen(buf: array<char>, at: nat, ghost room: nat) returns (n: nat)
    requires at + room <= buf.Length
    requires NUL in buf[at..at + room]
    ensures n < room && buf[at + n] == NUL && NulFree(buf[at..at + n])
    ensures buf[at..at + n] == CStr(buf[at..at + room])
  {
    ghost var end :| 0 <= end < room && buf[at..at + room][end] == NUL;
    n := 0;
    while buf[at + n] != NUL
      invariant n <= end && forall k :: at <= k < at + n ==> buf[k] != NUL
      decreases end - n
    {
      n := n + 1;
    }
    ghost var w := buf[..];
    CStrOfSlice(w, at, room, n);
    assert buf[at..at + n] == w[at..at + n] && buf[at..at + room] == w[at..at + room];
  }
}
