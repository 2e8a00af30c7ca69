/** Padding a field to a width, and reading the width and side from a pattern. */
module PatternFormatter {
  import opened Basics

  datatype PadSide = Left | Right | Center

  datatype Padding = Padding(width: nat, side: PadSide, truncate: bool, enabled: bool)

  const NO_PADDING := Padding(0, Left, false, false)
  const MAX_WIDTH: nat := 64

  // ----- Padding one field -----

  function Spaces(n: nat): (s: string)
    ensures |s| == n && forall i :: 0 <= i < n ==> s[i] == ' '
  {
    seq(n, _ => ' ')
  }

  /** A field of known size, padded or cut to the width asked for. */
  function Fit(text: string, p: Padding): string {
    if |text| > p.width then if p.truncate then text[..p.width] else text
    else
      var room := p.width - |text|;
      match p.side
      case Left => Spaces(room) + text
      case Right => text + Spaces(room)
      case Center => Spaces(room / 2) + text + Spaces(room - room / 2)
  }

  /** The scoped padder around a formatter that announces its true size: what its
      constructor writes, the field, and what its destructor writes or takes back. */
  method ScopedPad(dest: string, text: string, p: Padding) returns (r: string)
    requires p.width <= MAX_WIDTH
    ensures r == dest + Fit(text, p)
    ensures |r| == |dest| + if p.truncate || |text| < p.width then p.width else |text|
  {
    r := dest;
    var remaining := p.width - |text|;
    if remaining > 0 {
      if p.side == Left {
        r := r + Spaces(remaining);
        remaining := 0;
      } else if p.side == Center {
        var half := remaining / 2;
        var reminder := remaining % 2;
        r := r + Spaces(half);
        remaining := half + reminder;
      }
    }
    ghost var open := r;
    r := r + text;
    if remaining >= 0 {
      r := r + Spaces(remaining);
      assert r == dest + (open[|dest|..] + text + Spaces(remaining));
    } else if p.truncate {
      r := r[..|r| + remaining];
    }
  }

  /** `s` is `text` at offset `k` with nothing but spaces around it. */
  ghost predicate Surrounds(s: string, text: string, k: nat) {
    && k + |text| <= |s| && s[k..k + |text|] == text
    && forall i :: 0 <= i < |s| && !(k <= i < k + |text|) ==> s[i] == ' '
  }

  /** Padding never adds more than the widest spec, and never changes the text it keeps. */
  lemma FitKeepsText(text: string, p: Padding)
    requires p.width <= MAX_WIDTH
    ensures |Fit(text, p)| == if p.truncate || |text| < p.width then p.width else |text|
    ensures |Fit(text, p)| <= |text| + 64
    ensures |text| <= p.width ==> exists k :: Surrounds(Fit(text, p), text, k)
    ensures |text| > p.width ==> Fit(text, p) <= text
  {
    if |text| <= p.width {
      var room := p.width - |text|;
      var k := match p.side case Left => room case Right => 0 case Center => room / 2;
      assert Surrounds(Fit(text, p), text, k);
    }
  }

  /** On which side the spaces stand: before the text for a left pad, after it for a right one,
      and for a centred field on both, with the odd space after it. */
  lemma FitSide(text: string, p: Padding, k: nat)
    requires |text| < p.width && k < p.width
    ensures var before := match p.side
                          case Left => p.width - |text|
                          case Right => 0
                          case Center => (p.width - |text|) / 2;
            Fit(text, p)[k] == if before <= k < before + |text| then text[k - before] else ' '
  {
    var room := p.width - |text|;
    var before := match p.side case Left => room case Right => 0 case Center => room / 2;
    assert Fit(text, p) == Spaces(before) + text + Spaces(room - before);
  }

  // ----- Reading a pad spec -----

  predicate IsDigit(c: char) {
    '0' <= c <= '9'
  }

  function DigitValue(c: char): nat
    requires IsDigit(c)
  {
    c as nat - '0' as nat
  }

  /** The digits at the front of `s` appended to `width`, in 64 bits, and what follows them. */
  function Digits(s: string, width: nat): (nat, string) {
    if s == [] || !IsDigit(s[0]) then (width, s)
    else Digits(s[1..], (width * 10 + DigitValue(s[0])) % TWO64)
  }

  /** The width and truncation mark at the front of `t`, and what follows them. */
  function PadWidth(t: string, side: PadSide): (r: (Padding, string))
    ensures |r.1| <= |t| && r.0.width <= MAX_WIDTH
  {
    if t == [] || !IsDigit(t[0]) then (NO_PADDING, t)
    else
      DigitsShorter(t, 0);
      var (width, u) := Digits(t, 0);
      var truncate := u != [] && u[0] == '!';
      (Padding(if width < MAX_WIDTH then width else MAX_WIDTH, side, truncate, true), if truncate then u[1..] else u)
  }

  /** The pad spec at the front of `s`, and what follows it. */
  function PadSpec(s: string): (r: (Padding, string))
    ensures |r.1| <= |s| && r.0.width <= MAX_WIDTH
  {
    if s == [] then (NO_PADDING, s)
    else if s[0] == '-' then PadWidth(s[1..], Right)
    else if s[0] == '=' then PadWidth(s[1..], Center)
    else PadWidth(s, Left)
  }

  lemma {:induction false} DigitsShorter(s: string, width: nat)
    ensures |Digits(s, width).1| <= |s| && Digits(s, width).1 == s[|s| - |Digits(s, width).1|..]
    ensures Digits(s, width).1 == [] || !IsDigit(Digits(s, width).1[0])
    decreases |s|
  {
    if s != [] && IsDigit(s[0]) {
      DigitsShorter(s[1..], (width * 10 + DigitValue(s[0])) % TWO64);
    }
  }

  function Decimal(n: nat): (s: string)
    ensures |s| > 0 && forall i :: 0 <= i < |s| ==> IsDigit(s[i])
  {
    (if n < 10 then [] else Decimal(n / 10)) + [('0' as nat + n % 10) as char]
  }

  lemma {:induction false} DigitsOfDecimal(n: nat, rest: string)
    requires n < TWO64 && (rest == [] || !IsDigit(rest[0]))
    ensures Digits(Decimal(n) + rest, 0) == (n, rest)
  {
    DigitsFold(n, rest);
  }

  lemma DigitsHead(c: char, rest: string, width: nat)
    requires IsDigit(c)
    ensures Digits([c] + rest, width) == Digits(rest, (width * 10 + DigitValue(c)) % TWO64)
  {
    assert ([c] + rest)[1..] == rest;
  }

  lemma DecimalLast(n: nat, rest: string) returns (c: char)
    requires n >= 10
    ensures IsDigit(c) && DigitValue(c) == n % 10
    ensures Decimal(n) + rest == Decimal(n / 10) + ([c] + rest)
  {
    c := ('0' as nat + n % 10) as char;
  }

  lemma DecimalOne(n: nat) returns (c: char)
    requires n < 10
    ensures IsDigit(c) && DigitValue(c) == n && Decimal(n) == [c]
  {
    c := ('0' as nat + n) as char;
  }

  lemma NextDigit(n: nat)
    requires n < TWO64
    ensures (n / 10 * 10 + n % 10) % TWO64 == n
  {
  }

  /** Reading the decimal digits of `n` leaves `n`, whatever follows them. */
  lemma {:induction false} DigitsFold(n: nat, rest: string)
    requires n < TWO64
    ensures Digits(Decimal(n) + rest, 0) == Digits(rest, n)
    decreases n
  {
    if n < 10 {
      var c := DecimalOne(n);
      DigitsHead(c, rest, 0);
    } else {
      var c := DecimalLast(n, rest);
      DigitsFold(n / 10, [c] + rest);
      DigitsHead(c, rest, n / 10);
      NextDigit(n);
    }
  }

  lemma PadWidthRoundTrip(side: PadSide, width: nat, truncate: bool, rest: string)
    requires width < TWO64 && (rest == [] || !IsDigit(rest[0]))
    requires !truncate ==> rest == [] || rest[0] != '!'
    ensures PadWidth(Decimal(width) + ((if truncate then "!" else "") + rest), side) ==
            (Padding(if width < MAX_WIDTH then width else MAX_WIDTH, side, truncate, true), rest)
  {
    var u := (if truncate then "!" else "") + rest;
    DigitsOfDecimal(width, u);
    assert (Decimal(width) + u)[0] == Decimal(width)[0];
    assert if truncate then u[1..] == rest else u == rest;
  }

  /** A pad spec written out is read back, with its width capped, for any width that fits in
      64 bits, provided the flag that follows could not be taken for part of the spec. */
  lemma PadSpecRoundTrip(side: PadSide, width: nat, truncate: bool, rest: string)
    requires width < TWO64 && (rest == [] || !IsDigit(rest[0]))
    requires !truncate ==> rest == [] || rest[0] != '!'
    ensures var sign := match side case Left => "" case Right => "-" case Center => "=";
            PadSpec(sign + (Decimal(width) + ((if truncate then "!" else "") + rest))) ==
            (Padding(if width < 64 then width else 64, side, truncate, true), rest)
  {
    var t := Decimal(width) + ((if truncate then "!" else "") + rest);
    PadWidthRoundTrip(side, width, truncate, rest);
    assert t[0] == Decimal(width)[0];
    assert "" + t == t && ("-" + t)[1..] == t && ("=" + t)[1..] == t;
  }
}
