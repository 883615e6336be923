/**
 The rendering of a USB product id by `snprintf(usb_pid, 6, "%X", pid)`
 (src/main.cpp:444-446): upper-case hexadecimal, no leading zeros, no prefix.
 The device selector compares the `-p` argument with this text, so the
 argument matches exactly when it is the canonical spelling of the pid.
 */
module Hex {

  /** A USB product id is 16 bits (stored as `uint16_t` at src/main.cpp:128). */
  type uint16 = x: int | 0 <= x < 0x1_0000

  predicate IsUpperHexDigit(c: char)
  {
    '0' <= c <= '9' || 'A' <= c <= 'F'
  }

  function Digit(d: nat): (c: char)
    requires d < 16
    ensures IsUpperHexDigit(c)
  {
    if d < 10 then ('0' as int + d) as char else ('A' as int + d - 10) as char
  }

  function DigitValue(c: char): (d: nat)
    requires IsUpperHexDigit(c)
    ensures d < 16 && Digit(d) == c
  {
    if c <= '9' then c as int - '0' as int else c as int - 'A' as int + 10
  }

  predicate AllUpperHexDigits(s: string)
  {
    forall i :: 0 <= i < |s| ==> IsUpperHexDigit(s[i])
  }

  /** `%X` of a non-negative value. */
  function FormatHex(v: nat): (r: string)
    decreases v
  {
    if v < 16 then [Digit(v)] else FormatHex(v / 16) + [Digit(v % 16)]
  }

  /** The value of a string of upper-case hex digits, most significant first. */
  function HexValue(s: string): nat
    requires AllUpperHexDigits(s)
    decreases |s|
  {
    if s == [] then 0 else 16 * HexValue(s[..|s| - 1]) + DigitValue(s[|s| - 1])
  }

  /** The spellings `%X` produces: non-empty, upper-case digits, no leading zero. */
  predicate IsCanonicalHex(s: string)
  {
    |s| >= 1 && AllUpperHexDigits(s) && (|s| > 1 ==> s[0] != '0')
  }

  lemma {:induction false} FormatHexIsCanonical(v: nat)
    ensures IsCanonicalHex(FormatHex(v))
    ensures HexValue(FormatHex(v)) == v
    ensures v > 0 ==> FormatHex(v)[0] != '0'
    decreases v
  {
    if v >= 16 {
      FormatHexIsCanonical(v / 16);
      var r := FormatHex(v);
      assert r[..|r| - 1] == FormatHex(v / 16);
    }
  }

  lemma {:induction false} HexValuePositive(s: string)
    requires |s| >= 1 && AllUpperHexDigits(s) && s[0] != '0'
    ensures HexValue(s) >= 1
    decreases |s|
  {
    if |s| > 1 {
      HexValuePositive(s[..|s| - 1]);
    }
  }

  lemma {:induction false} FormatHexOfValue(s: string)
    requires IsCanonicalHex(s)
    ensures FormatHex(HexValue(s)) == s
    decreases |s|
  {
    if |s| > 1 {
      var init := s[..|s| - 1];
      var d := DigitValue(s[|s| - 1]);
      FormatHexOfValue(init);
      HexValuePositive(init);
      var v := HexValue(s);
      assert v == 16 * HexValue(init) + d;
      assert v / 16 == HexValue(init) && v % 16 == d;
      assert FormatHex(v) == FormatHex(HexValue(init)) + [Digit(d)];
      assert init + [s[|s| - 1]] == s;
    }
  }

  /**
   The `-p` comparison `strcmp(optpar_dev_usbpid, usb_pid) == 0`: the argument
   equals the `%X` text of the pid exactly when it is a canonical hex spelling
   whose value is the pid.
   */
  lemma PidArgMatches(arg: string, pid: uint16)
    ensures arg == FormatHex(pid) <==> IsCanonicalHex(arg) && HexValue(arg) == pid
  {
    FormatHexIsCanonical(pid);
    if IsCanonicalHex(arg) && HexValue(arg) == pid {
      FormatHexOfValue(arg);
    }
  }

  /** Different pids never render alike. */
  lemma FormatHexInjective(p: nat, q: nat)
    requires FormatHex(p) == FormatHex(q)
    ensures p == q
  {
    FormatHexIsCanonical(p);
    FormatHexIsCanonical(q);
  }

  function Pow16(k: nat): nat
  {
    if k == 0 then 1 else 16 * Pow16(k - 1)
  }

  lemma {:induction false} FormatHexLength(v: nat, k: nat)
    requires k >= 1 && v < Pow16(k)
    ensures |FormatHex(v)| <= k
    decreases k
  {
    if v >= 16 {
      assert k >= 2;
      assert v / 16 < Pow16(k - 1);
      FormatHexLength(v / 16, k - 1);
    }
  }

  /** A pid never needs more than four digits, so the six-byte buffer holds it untruncated. */
  lemma PidFitsBuffer(pid: uint16)
    ensures |FormatHex(pid)| <= 4 < 6
  {
    assert Pow16(4) == 0x1_0000;
    FormatHexLength(pid, 4);
  }

  /** The help text's examples: Mini S is pid 0407, which `%X` writes as "407". */
  lemma PidExamples()
    ensures FormatHex(0x0407) == "407"
    ensures FormatHex(0x065B) == "65B"
    ensures "0407" != FormatHex(0x0407)
    ensures "65b" != FormatHex(0x065B)
  {
  }
}
