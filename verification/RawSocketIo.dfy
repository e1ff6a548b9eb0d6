/** What raw_udp.c and raw_ibverbs.c share: a counter printed with `snprintf`, and a raw socket to send frames on. */
module RawSocketIo {

  type Digit = d: int | 0 <= d < 10

  function Digits(n: nat): (s: seq<Digit>)
    ensures |s| > 0
  {
    if n < 10 then [n] else Digits(n / 10) + [n % 10]
  }

  lemma {:induction false} DigitsMonotone(a: nat, b: nat)
    requires a <= b
    ensures |Digits(a)| <= |Digits(b)|
  {
    if a >= 10 { DigitsMonotone(a / 10, b / 10); }
  }

  /** A 32-bit counter never prints more than ten digits. */
  lemma CounterDigits(count: nat)
    requires count < 0x8000_0000
    ensures |Digits(count)| <= 10
  {
    DigitsMonotone(count, 0x8000_0000);
    assert |Digits(0x8000_0000)| == 10;
  }

  type Ascii = x: int | 0 <= x < 128

  /** "Message: " */
  const PREFIX: seq<Ascii> := [0x4D, 0x65, 0x73, 0x73, 0x61, 0x67, 0x65, 0x3A, 0x20]

  /** What both senders print for one value of their counter. */
  function Message(count: nat): (s: seq<Ascii>)
    ensures |s| == |PREFIX| + |Digits(count)|
  {
    var digits := Digits(count);
    PREFIX + seq(|digits|, i requires 0 <= i < |digits| => digits[i] as int + 0x30)
  }

  lemma MessageLength(count: nat)
    requires count < 0x8000_0000
    ensures |Message(count)| <= 19
  {
    CounterDigits(count);
  }

  /** The number that a row of decimal digits denotes, most significant digit first. */
  function Value(digits: seq<Digit>): nat {
    if digits == [] then 0 else 10 * Value(digits[..|digits| - 1]) + digits[|digits| - 1]
  }

  /** The numeral that `%d` prints for a non-negative number: it denotes the number and has no leading zero. */
  ghost predicate IsNumeral(digits: seq<Digit>, n: nat) {
    digits != [] && Value(digits) == n && (digits[0] == 0 ==> digits == [0])
  }

  lemma NumeralPrefix(digits: seq<Digit>, n: nat)
    requires IsNumeral(digits, n) && |digits| > 1
    ensures n >= 10 && n % 10 == digits[|digits| - 1] && IsNumeral(digits[..|digits| - 1], n / 10)
  {
    var front := digits[..|digits| - 1];
    assert front[0] == digits[0];
    LeadingDigit(front);
  }

  lemma {:induction false} LeadingDigit(digits: seq<Digit>)
    requires digits != [] && digits[0] != 0
    ensures Value(digits) > 0
  {
    if |digits| > 1 { LeadingDigit(digits[..|digits| - 1]); }
  }

  lemma SingleDigit(d: Digit)
    ensures Value([d]) == d
  {
    assert [d][..0] == [];
  }

  lemma OneDigit(digits: seq<Digit>)
    requires |digits| == 1
    ensures Value(digits) == digits[0] && digits == [digits[0]]
  {
    SingleDigit(digits[0]);
    assert digits == [digits[0]];
  }

  /** `Digits` is the one numeral of a number. */
  lemma {:induction false} DigitsAreNumeral(digits: seq<Digit>, n: nat)
    ensures IsNumeral(digits, n) <==> digits == Digits(n)
    decreases n
  {
    if n < 10 {
      SingleDigit(n);
      if IsNumeral(digits, n) {
        if |digits| > 1 {
          NumeralPrefix(digits, n);
        } else {
          OneDigit(digits);
        }
      }
    } else {
      DigitsAreNumeral(Digits(n / 10), n / 10);
      var whole := Digits(n / 10) + [n % 10];
      assert whole[..|whole| - 1] == Digits(n / 10);
      assert whole[0] == Digits(n / 10)[0];
      if IsNumeral(digits, n) {
        if |digits| == 1 {
          OneDigit(digits);
        } else {
          NumeralPrefix(digits, n);
          DigitsAreNumeral(digits[..|digits| - 1], n / 10);
          assert digits == digits[..|digits| - 1] + [digits[|digits| - 1]];
        }
      }
    }
  }

  /** The codes of "Message: " and of the digits of a numeral, which begin at code 48. */
  ghost predicate IsMessage(codes: seq<int>, n: nat) {
    && |codes| > 9
    && codes[..9] == [77, 101, 115, 115, 97, 103, 101, 58, 32]
    && exists digits: seq<Digit> :: IsNumeral(digits, n) && |codes| == 9 + |digits|
                                    && forall i :: 0 <= i < |digits| ==> codes[9 + i] == digits[i] as int + 48
  }

  /** What is printed for a counter value is the one message with that number. */
  lemma MessageTells(codes: seq<int>, n: nat)
    ensures IsMessage(codes, n) <==> codes == Message(n)
  {
    hide Digits, IsNumeral, Value;
    DigitsAreNumeral(Digits(n), n);
    PrefixCodes();
    var m: seq<int> := Message(n);
    assert m[..9] == PREFIX;
    forall i | 0 <= i < |Digits(n)| ensures m[9 + i] == Digits(n)[i] as int + 48 {
    }
    assert IsMessage(m, n);
    if IsMessage(codes, n) {
      var digits: seq<Digit> :| IsNumeral(digits, n) && |codes| == 9 + |digits|
                                && forall i :: 0 <= i < |digits| ==> codes[9 + i] == digits[i] as int + 48;
      DigitsAreNumeral(digits, n);
      forall i | 0 <= i < |codes| ensures codes[i] == m[i] {
        if i < 9 {
          assert codes[i] == codes[..9][i] && m[i] == m[..9][i];
        } else {
          assert codes[9 + (i - 9)] == digits[i - 9] as int + 48;
        }
      }
    }
  }

  lemma PrefixCodes()
    ensures PREFIX == [77, 101, 115, 115, 97, 103, 101, 58, 32]
  {
  }

  /** A buffer after a text and its terminator have been written to its start. */
  function WithString<T>(buffer: seq<T>, text: seq<T>, nul: T): (s: seq<T>)
    requires |text| < |buffer|
    ensures |s| == |buffer|
  {
    text + [nul] + buffer[|text| + 1..]
  }

  /** The part of a text that fits into `size` bytes together with the terminator. */
  function Fitting<T>(text: seq<T>, size: nat): (s: seq<T>)
    requires 0 < size
    ensures s <= text && |s| < size
    ensures |s| == |text| || |s| == size - 1
  {
    if |text| < size then text else text[..size - 1]
  }

  /**
   `snprintf` at `offset`: as much of the text as fits into `size` bytes, always terminated; returns the length of
   the whole text.
  */
  method Snprintf<T>(buffer: array<T>, offset: nat, size: nat, text: seq<T>, nul: T) returns (n: nat)
    requires 0 < size && offset + size <= buffer.Length
    modifies buffer
    ensures n == |text|
    ensures buffer[offset..offset + size]
         == WithString(old(buffer[offset..offset + size]), Fitting(text, size), nul)
    ensures buffer[..offset] == old(buffer[..offset])
    ensures buffer[offset + size..] == old(buffer[offset + size..])
  {
    ghost var before := buffer[..];
    n := |text|;
    var m := if n < size then n else size - 1;
    for i := 0 to m
      invariant forall j :: 0 <= j < i ==> buffer[offset + j] == text[j]
      invariant forall j :: 0 <= j < buffer.Length && !(offset <= j < offset + i) ==> buffer[j] == old(buffer[j])
    {
      buffer[offset + i] := text[i];
    }
    buffer[offset + m] := nul;
    PrintedArea(before, buffer[..], offset, size, text, nul);
  }

  lemma PrintedArea<T>(before: seq<T>, after: seq<T>, offset: nat, size: nat, text: seq<T>, nul: T)
    requires 0 < size && offset + size <= |before| == |after|
    requires var m := |Fitting(text, size)|;
             && (forall j :: offset <= j < offset + m ==> after[j] == text[j - offset])
             && after[offset + m] == nul
             && forall j :: 0 <= j < |after| && !(offset <= j <= offset + m) ==> after[j] == before[j]
    ensures after[offset..offset + size] == WithString(before[offset..offset + size], Fitting(text, size), nul)
    ensures after[..offset] == before[..offset] && after[offset + size..] == before[offset + size..]
  {
    var fitting, area := Fitting(text, size), before[offset..offset + size];
    hide Fitting;
    forall i | 0 <= i < size ensures after[offset + i] == WithString(area, fitting, nul)[i] {
      if i > |fitting| { assert area[i] == before[offset + i]; }
    }
  }

  /** The frames that `sendto` has accepted. */
  class RawSocket<T> {
    var frames: seq<seq<T>>

    constructor ()
      ensures frames == []
    {
      frames := [];
    }

    method SendTo(frame: seq<T>, up: bool) returns (result: int)
      modifies this
      ensures up ==> result == |frame| && frames == old(frames) + [frame]
      ensures !up ==> result == -1 && frames == old(frames)
    {
      if up {
        frames := frames + [frame];
        result := |frame|;
      } else {
        result := -1;
      }
    }
  }

  /** How a send loop ends: by signal, or by one of its two error exits. */
  datatype Exit = Interrupted | MessageTooLong | SendFailed
}
