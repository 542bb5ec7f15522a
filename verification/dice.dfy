/** The die: a glyph style and a tile side length.

    `Die(style, side)` keeps the style as the decimal text of the number it
    is given (`str(style)`) and the side unchanged, and replaces a missing
    or zero argument by the default: style "1", side 1.  A die is never
    changed after it is built, so it is a value here.
 */
module Dice {
  import opened Faces

  datatype Option<T> = None | Some(value: T)

  /** An integer die argument as the command line hands it over: absent
      (None) or a number. */
  type Arg = Option<int>

  datatype Die = Die(style: string, side: int)

  /** Python truthiness of an optional integer: present and non-zero. */
  predicate Truthy(a: Arg)
  {
    a.Some? && a.value != 0
  }

  predicate IsDigit(ch: char)
  {
    '0' <= ch <= '9'
  }

  predicate AllDigits(s: string)
  {
    forall k :: 0 <= k < |s| ==> IsDigit(s[k])
  }

  function DigitChar(d: int): (ch: char)
    requires 0 <= d <= 9
    ensures IsDigit(ch)
  {
    ('0' as int + d) as char
  }

  function DigitValue(ch: char): (d: int)
    requires IsDigit(ch)
    ensures 0 <= d <= 9
  {
    ch as int - '0' as int
  }

  /** The decimal numeral of `n`, as `str` writes it: at least one digit,
      and no leading zero unless the number is zero itself. */
  function NatToString(n: nat): (s: string)
    ensures |s| >= 1 && AllDigits(s)
    ensures s[0] == '0' <==> n == 0
    decreases n
  {
    if n < 10 then [DigitChar(n)] else NatToString(n / 10) + [DigitChar(n % 10)]
  }

  /** `str(n)` for a Python int: a minus sign before the numeral of |n|. */
  function IntToString(n: int): (s: string)
    ensures |s| >= 1
    ensures s[0] == '-' <==> n < 0
  {
    if n < 0 then "-" + NatToString(-n) else NatToString(n)
  }

  /** The value of a string of decimal digits. */
  function ParseDigits(s: string): nat
    requires AllDigits(s)
  {
    if s == [] then 0 else ParseDigits(s[..|s| - 1]) * 10 + DigitValue(s[|s| - 1])
  }

  /** The value of a numeral written by IntToString. */
  function ParseInt(s: string): int
    requires |s| >= 1
    requires if s[0] == '-' then AllDigits(s[1..]) else AllDigits(s)
  {
    if s[0] == '-' then 0 - ParseDigits(s[1..]) else ParseDigits(s)
  }

  lemma {:induction false} NatToStringRoundTrip(n: nat)
    ensures ParseDigits(NatToString(n)) == n
    decreases n
  {
    var s := NatToString(n);
    if n >= 10 {
      NatToStringRoundTrip(n / 10);
      assert s[..|s| - 1] == NatToString(n / 10);
    }
  }

  /** Reading back the text `str` writes gives the number again. */
  lemma IntToStringRoundTrip(n: int)
    ensures var s := IntToString(n);
      (if s[0] == '-' then AllDigits(s[1..]) else AllDigits(s)) && ParseInt(s) == n
  {
    var s := IntToString(n);
    if n < 0 {
      assert s[1..] == NatToString(-n);
      NatToStringRoundTrip(-n);
    } else {
      NatToStringRoundTrip(n);
    }
  }

  /** `Die.__init__`: a falsy style becomes "1", any other becomes
      `str(style)`; a falsy side becomes 1, any other is kept.  The side is
      never zero, and it is positive unless a negative side was given. */
  function NewDie(style: Arg, side: Arg): (d: Die)
    ensures d.side != 0
    ensures d.side >= 1 <==> !(side.Some? && side.value < 0)
    ensures Truthy(side) ==> d.side == side.value
    ensures |d.style| >= 1
    ensures d.style[0] == '-' <==> (Truthy(style) && style.value < 0)
    ensures !Truthy(side) ==> d.side == 1
    ensures !Truthy(style) ==> d.style == "1"
    ensures Truthy(style) ==> d.style == IntToString(style.value)
  {
    Die(if Truthy(style) then IntToString(style.value) else "1",
        if Truthy(side) then side.value else 1)
  }

  /** The style a die stores reads back as the given style, or as 1 when
      the style was missing or zero. */
  lemma NewDieStyleRoundTrip(style: Arg, side: Arg)
    ensures var s := NewDie(style, side).style;
      (if s[0] == '-' then AllDigits(s[1..]) else AllDigits(s)) &&
      ParseInt(s) == if Truthy(style) then style.value else 1
  {
    if Truthy(style) {
      IntToStringRoundTrip(style.value);
    } else {
      assert ParseDigits("1"[..0]) == 0;
    }
  }

  /** A die quantises directly exactly when it was built with style 5 or
      6; a missing or zero style falls back to "1", which is inverted. */
  lemma NewDieIsDirect(style: Arg, side: Arg)
    ensures IsDirectStyle(NewDie(style, side).style) <==> (style == Some(5) || style == Some(6))
  {
    var s := NewDie(style, side).style;
    if style == Some(5) {
      assert NatToString(5) == [DigitChar(5)];
    } else if style == Some(6) {
      assert NatToString(6) == [DigitChar(6)];
    } else if IsDirectStyle(s) {
      NewDieStyleRoundTrip(style, side);
      assert ParseInt(s) == ParseDigits(s) == DigitValue(s[0]) by {
        assert s[..0] == [];
      }
    }
  }
}
