/** The rate-limit key and the signal text it is built from. */
module CrashKey {

  /** What the reader takes from the exception record, if the dump has one. */
  datatype Exception = Exception(signal: nat, code: nat, address: nat)

  datatype CrashInfo = CrashInfo(processName: string, signalInfo: string, faultAddr: nat)

  const SIGSEGV := 11

  // ----- Numbers in text

  predicate IsBase(base: nat) {
    base == 10 || base == 16
  }

  function Digit(d: nat): char
    requires d < 16
  {
    "0123456789abcdef"[d]
  }

  function Digits(n: nat, base: nat): (s: string)
    requires IsBase(base)
    ensures |s| > 0
  {
    if n < base then [Digit(n)] else Digits(n / base, base) + [Digit(n % base)]
  }

  lemma DigitsDiffer(a: nat, b: nat)
    requires a < 16 && b < 16 && Digit(a) == Digit(b)
    ensures a == b
  {
    var s := "0123456789abcdef";
    assert s[0] == '0' && s[1] == '1' && s[2] == '2' && s[3] == '3' && s[4] == '4' && s[5] == '5' && s[6] == '6';
    assert s[7] == '7' && s[8] == '8' && s[9] == '9' && s[10] == 'a' && s[11] == 'b' && s[12] == 'c';
    assert s[13] == 'd' && s[14] == 'e' && s[15] == 'f';
  }

  lemma {:induction false} DigitsInjective(a: nat, b: nat, base: nat)
    requires IsBase(base) && Digits(a, base) == Digits(b, base)
    ensures a == b
    decreases a
  {
    hide Digit;
    var s, t := Digits(a, base), Digits(b, base);
    assert a < base <==> |s| == 1;
    assert b < base <==> |t| == 1;
    if a < base {
      DigitsDiffer(a, b);
    } else {
      assert s[..|s| - 1] == Digits(a / base, base) && t[..|t| - 1] == Digits(b / base, base);
      assert s[|s| - 1] == Digit(a % base) && t[|t| - 1] == Digit(b % base);
      DigitsInjective(a / base, b / base, base);
      DigitsDiffer(a % base, b % base);
    }
  }

  lemma {:induction false} DigitsHaveNoColon(n: nat, base: nat)
    requires IsBase(base)
    ensures ':' !in Digits(n, base)
    decreases n
  {
    DigitIsNoColon(n % base);
    if n >= base {
      DigitsHaveNoColon(n / base, base);
    }
  }

  lemma DigitIsNoColon(d: nat)
    requires d < 16
    ensures Digit(d) != ':'
  {
    assert ':' !in "0123456789abcdef";
  }

  function Pow16(k: nat): nat {
    if k == 0 then 1 else 16 * Pow16(k - 1)
  }

  lemma {:induction false} HexLength(n: nat, k: nat)
    requires 0 < k && n < Pow16(k)
    ensures |Digits(n, 16)| <= k
    decreases k
  {
    if n >= 16 {
      HexLength(n / 16, k - 1);
    }
  }

  /** Every 64-bit address fits the 16 characters that the buffer offers to_chars. */
  lemma FaultAddrFits(address: nat)
    requires address < 0x1_0000_0000_0000_0000
    ensures |Digits(address, 16)| <= 16
  {
    assert Pow16(4) == 0x1_0000;
    assert Pow16(8) == 0x1_0000_0000;
    assert Pow16(12) == 0x1_0000_0000_0000;
    assert Pow16(16) == 0x1_0000_0000_0000_0000;
    HexLength(address, 16);
  }

  // ----- ExtractExceptionInfo

  function SignalName(signal: nat): string {
    match signal
    case 4 => "SIGILL"
    case 6 => "SIGABRT"
    case 7 => "SIGBUS"
    case 8 => "SIGFPE"
    case 11 => "SIGSEGV"
    case _ => "signal " + Digits(signal, 10)
  }

  function SignalInfo(signal: nat, code: nat): string {
    if signal == SIGSEGV && code == 1 then SignalName(signal) + " / " + "SEGV_MAPERR"
    else if signal == SIGSEGV && code == 2 then SignalName(signal) + " / " + "SEGV_ACCERR"
    else SignalName(signal)
  }

  /** A dump without exception record keeps the default fields. */
  function Read(processName: string, exc: seq<Exception>): CrashInfo
    requires |exc| <= 1
  {
    if exc == [] then CrashInfo(processName, "", 0)
    else CrashInfo(processName, SignalInfo(exc[0].signal, exc[0].code), exc[0].address)
  }

  // ----- The key

  function Key(info: CrashInfo): string {
    info.processName + ":" + info.signalInfo + ":" + Digits(info.faultAddr, 16)
  }

  lemma SignalInfoHasNoColon(signal: nat, code: nat)
    ensures ':' !in SignalInfo(signal, code)
  {
    hide Digits;
    DigitsHaveNoColon(signal, 10);
  }

  /** Texts without ':' at the end can be told apart from what precedes the ':'. */
  lemma SplitAtLastColon(a: string, x: string, b: string, y: string)
    requires ':' !in x && ':' !in y && a + ":" + x == b + ":" + y
    ensures a == b && x == y
  {
    var s, t := a + ":" + x, b + ":" + y;
    assert s[|a|] == ':' && t[|b|] == ':';
    assert s[..|a|] == a && t[..|b|] == b && s[|a| + 1..] == x && t[|b| + 1..] == y;
  }

  /** Two dumps share a key exactly when process name, signal text and fault address are all
      equal, even if process names contain ':'. */
  lemma KeyIsInjective(p: string, e: seq<Exception>, q: string, f: seq<Exception>)
    requires |e| <= 1 && |f| <= 1
    ensures Key(Read(p, e)) == Key(Read(q, f)) <==> Read(p, e) == Read(q, f)
  {
    hide Digits, SignalInfo;
    var i, j := Read(p, e), Read(q, f);
    if Key(i) == Key(j) {
      DigitsHaveNoColon(i.faultAddr, 16);
      DigitsHaveNoColon(j.faultAddr, 16);
      if e != [] { SignalInfoHasNoColon(e[0].signal, e[0].code); }
      if f != [] { SignalInfoHasNoColon(f[0].signal, f[0].code); }
      SplitAtLastColon(i.processName + ":" + i.signalInfo, Digits(i.faultAddr, 16),
                       j.processName + ":" + j.signalInfo, Digits(j.faultAddr, 16));
      SplitAtLastColon(i.processName, i.signalInfo, j.processName, j.signalInfo);
      DigitsInjective(i.faultAddr, j.faultAddr, 16);
    }
  }

  /** The SIGSEGV codes that have a name of their own. */
  function CodeClass(signal: nat, code: nat): nat {
    if signal == SIGSEGV && (code == 1 || code == 2) then code else 0
  }

  /** The signal text tells signals apart, and of the codes just the two named ones. */
  lemma SignalInfoDistinguishes(s: nat, c: nat, t: nat, d: nat)
    ensures SignalInfo(s, c) == SignalInfo(t, d) <==> s == t && CodeClass(s, c) == CodeClass(t, d)
  {
    hide Digits;
    SignalNamesDiffer(s, t);
    var a, b := SignalInfo(s, c), SignalInfo(t, d);
    if a == b {
      assert SignalName(s) <= a && SignalName(t) <= b;
      if s == SIGSEGV || t == SIGSEGV {
        assert s == SIGSEGV ==> a[0] == 'S' && a[3] == 'S' && a[4] == 'E' && |SignalName(SIGSEGV)| == 7;
        assert t == SIGSEGV ==> b[0] == 'S' && b[3] == 'S' && b[4] == 'E';
        assert SignalInfo(SIGSEGV, 1)[15] == 'M' && SignalInfo(SIGSEGV, 2)[15] == 'A' && |SignalInfo(SIGSEGV, 0)| == 7;
      }
    }
  }

  lemma SignalNamesDiffer(s: nat, t: nat)
    ensures SignalName(s) == SignalName(t) <==> s == t
  {
    hide Digits;
    var a, b := SignalName(s), SignalName(t);
    if a == b {
      assert a[2] == b[2] && a[3] == b[3] && a[4] == b[4];
      if a[2] == 'g' {
        assert a[7..] == Digits(s, 10) && b[7..] == Digits(t, 10);
        DigitsInjective(s, t, 10);
      }
    }
  }

  // ----- The texts themselves

  function DigitValue(c: char): nat {
    if '0' <= c <= '9' then (c - '0') as nat else if 'a' <= c <= 'f' then (c - 'a') as nat + 10 else 16
  }

  /** The number that a text stands for. */
  function Value(s: string, base: nat): nat {
    if s == [] then 0 else base * Value(s[..|s| - 1], base) + DigitValue(s[|s| - 1])
  }

  /** The numerals are read back, have no digit beyond their base and no leading zero. */
  lemma {:induction false} DigitsHaveValue(n: nat, base: nat)
    requires IsBase(base)
    ensures Value(Digits(n, base), base) == n
    ensures forall c :: c in Digits(n, base) ==> DigitValue(c) < base
    ensures n > 0 ==> Digits(n, base)[0] != '0'
    decreases n
  {
    hide Digit, DigitValue, Value;
    DigitHasValue(n % base);
    if n >= base {
      DigitsHaveValue(n / base, base);
      ValueAppend(Digits(n / base, base), Digit(n % base), base);
    } else {
      ValueAppend([], Digit(n), base);
      assert [] + [Digit(n)] == [Digit(n)] && Value([], base) == 0 by { NoDigits(base); }
    }
  }

  lemma NoDigits(base: nat)
    ensures Value([], base) == 0
  {
  }

  lemma ValueAppend(s: string, c: char, base: nat)
    ensures Value(s + [c], base) == base * Value(s, base) + DigitValue(c)
  {
    assert (s + [c])[..|s|] == s;
  }

  lemma DigitHasValue(d: nat)
    requires d < 16
    ensures DigitValue(Digit(d)) == d && (d > 0 ==> Digit(d) != '0')
  {
    var s := "0123456789abcdef";
    assert s[0] == '0' && s[1] == '1' && s[2] == '2' && s[3] == '3' && s[4] == '4' && s[5] == '5' && s[6] == '6';
    assert s[7] == '7' && s[8] == '8' && s[9] == '9' && s[10] == 'a' && s[11] == 'b' && s[12] == 'c';
    assert s[13] == 'd' && s[14] == 'e' && s[15] == 'f';
  }

  /** `text` is the numeral of `n`: lower-case digits of the base, most significant first. */
  predicate IsNumeral(text: string, n: nat, base: nat) {
    && text != [] && (n > 0 ==> text[0] != '0') && (n == 0 ==> text == "0")
    && Value(text, base) == n && forall c :: c in text ==> DigitValue(c) < base
  }

  /** The text of a signal, `number` being its decimal numeral. */
  function SignalText(signal: nat, code: nat, number: string): string {
    if signal == 4 then "SIGILL"
    else if signal == 6 then "SIGABRT"
    else if signal == 7 then "SIGBUS"
    else if signal == 8 then "SIGFPE"
    else if signal == 11 && code == 1 then "SIGSEGV / SEGV_MAPERR"
    else if signal == 11 && code == 2 then "SIGSEGV / SEGV_ACCERR"
    else if signal == 11 then "SIGSEGV"
    else "signal " + number
  }

  /** `key` is name, signal text and hexadecimal address, separated by colons. */
  ghost predicate IsKeyText(key: string, name: string, signal: nat, code: nat, address: nat) {
    exists number, hex {:trigger IsNumeral(number, signal, 10), IsNumeral(hex, address, 16)} ::
      IsNumeral(number, signal, 10) && IsNumeral(hex, address, 16)
      && key == name + ":" + SignalText(signal, code, number) + ":" + hex
  }

  lemma SignalInfoText(signal: nat, code: nat)
    ensures SignalInfo(signal, code) == SignalText(signal, code, Digits(signal, 10))
  {
    hide Digits;
    assert "SIGSEGV" + " / " + "SEGV_MAPERR" == "SIGSEGV / SEGV_MAPERR";
    assert "SIGSEGV" + " / " + "SEGV_ACCERR" == "SIGSEGV / SEGV_ACCERR";
  }

  lemma DigitsAreNumeral(n: nat, base: nat)
    requires IsBase(base)
    ensures IsNumeral(Digits(n, base), n, base)
  {
    hide DigitValue, Value;
    DigitsHaveValue(n, base);
    ZeroDigits();
  }

  lemma KeyText(name: string, signal: nat, code: nat, address: nat)
    ensures IsKeyText(Key(Read(name, [Exception(signal, code, address)])), name, signal, code, address)
    ensures Key(Read(name, [])) == name + "::0"
  {
    hide Digits, IsNumeral, SignalText, SignalInfo;
    SignalInfoText(signal, code);
    DigitsAreNumeral(signal, 10);
    DigitsAreNumeral(address, 16);
    ZeroDigits();
    assert name + ":" + "" + ":" + "0" == name + "::0";
  }

  lemma ZeroDigits()
    ensures Digits(0, 10) == "0" && Digits(0, 16) == "0"
  {
    assert "0123456789abcdef"[0] == '0';
  }
}
