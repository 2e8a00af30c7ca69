/**
 Log patterns: compiling a pattern into a list of formatters and running the list is the
 same as reading the pattern character by character and writing as one goes.  What the
 known flags write is left open: it is a parameter of the whole development, and every
 theorem holds for any choice of it.
 */
module LogPattern {
  import opened Basics
  import opened PatternFormatter

  /** A compiled formatter. */
  datatype Formatter =
    | Literal(text: string)               // aggregate_formatter
    | Character(c: char)                  // ch_formatter
    | Custom(flag: char, pad: Padding)    // a user's handler
    | Field(flag: char, pad: Padding)     // a built-in flag formatter

  /** Which flags have a user's handler, and what handlers and built-in flags do to the
      destination buffer. */
  datatype Env = Env(
    customFlags: set<char>,
    custom: (string, char, Padding) -> string,
    field: (string, char, Padding) -> string)

  /** The flags of the switch; the percent sign is apart. */
  const FLAGS: set<char> :=
    {'+', 'n', 'l', 'L', 't', 'v', 'a', 'A', 'b', 'h', 'B', 'c', 'C', 'Y', 'D', 'x', 'm', 'd', 'H', 'I', 'M', 'S', 'e',
     'f', 'F', 'E', 'p', 'r', 'R', 'T', 'X', 'z', 'P', '^', '$', '@', 's', 'g', '#', '!', 'u', 'i', 'o', 'O'}

  /** Three flags are second names of others. */
  function Canonical(flag: char): char {
    if flag == 'h' then 'b' else if flag == 'x' then 'D' else if flag == 'X' then 'T' else flag
  }

  // ----- Running a compiled pattern -----

  function RunOne(env: Env, f: Formatter, dest: string): string {
    match f
    case Literal(text) => dest + text
    case Character(c) => dest + [c]
    case Custom(flag, pad) => env.custom(dest, flag, pad)
    case Field(flag, pad) => env.field(dest, flag, pad)
  }

  function RunAll(env: Env, fs: seq<Formatter>, dest: string): string {
    if fs == [] then dest else RunOne(env, fs[|fs| - 1], RunAll(env, fs[..|fs| - 1], dest))
  }

  /** `pattern_formatter::format`: the formatters in turn, then the end of line. */
  method Format(env: Env, fs: seq<Formatter>, eol: string, dest: string) returns (r: string)
    ensures r == RunAll(env, fs, dest) + eol
  {
    r := dest;
    for i := 0 to |fs|
      invariant r == RunAll(env, fs[..i], dest)
    {
      assert fs[..i + 1][..i] == fs[..i];
      r := RunOne(env, fs[i], r);
    }
    assert fs[..|fs|] == fs;
    r := r + eol;
  }

  // ----- Reading the pattern directly -----

  /** Writing one flag. */
  function ShowFlag(env: Env, flag: char, pad: Padding, dest: string): string {
    if flag in env.customFlags then env.custom(dest, flag, pad)
    else if flag == '%' then dest + "%"
    else if flag in FLAGS then env.field(dest, Canonical(flag), pad)
    else if pad.truncate then env.field(dest, '!', pad.(truncate := false)) + [flag]
    else dest + ['%', flag]
  }

  /** Writing a pattern: ordinary characters as they are, flags with their pad specs; a '%'
      with no flag after it writes nothing. */
  function Show(env: Env, pattern: string, dest: string): string
    decreases |pattern|
  {
    if pattern == [] then dest
    else if pattern[0] != '%' then Show(env, pattern[1..], dest + [pattern[0]])
    else
      var (pad, rest) := PadSpec(pattern[1..]);
      if rest == [] then dest
      else Show(env, rest[1..], ShowFlag(env, rest[0], pad, dest))
  }

  // ----- The compiler -----

  /** The formatters appended for one flag. */
  function FlagFormatters(customFlags: set<char>, flag: char, pad: Padding): seq<Formatter> {
    if flag in customFlags then [Custom(flag, pad)]
    else if flag == '%' then [Character('%')]
    else if flag in FLAGS then [Field(Canonical(flag), pad)]
    else if !pad.truncate then [Literal(['%', flag])]
    else [Field('!', pad.(truncate := false)), Literal([flag])]
  }

  /** Characters gathered so far become one formatter, if there are any. */
  function Flush(chars: string): seq<Formatter> {
    if chars == [] then [] else [Literal(chars)]
  }

  /** The formatters for `pattern` when `chars` have been gathered before it. */
  function CompileFrom(customFlags: set<char>, pattern: string, chars: string): seq<Formatter>
    decreases |pattern|
  {
    if pattern == [] then Flush(chars)
    else if pattern[0] != '%' then CompileFrom(customFlags, pattern[1..], chars + [pattern[0]])
    else
      var (pad, rest) := PadSpec(pattern[1..]);
      if rest == [] then Flush(chars)
      else Flush(chars) + FlagFormatters(customFlags, rest[0], pad) + CompileFrom(customFlags, rest[1..], [])
  }

  lemma {:induction false} RunConcat(env: Env, x: seq<Formatter>, y: seq<Formatter>, dest: string)
    ensures RunAll(env, x + y, dest) == RunAll(env, y, RunAll(env, x, dest))
  {
    if y == [] {
      assert x + y == x;
    } else {
      var n := |y| - 1;
      assert (x + y)[..|x| + n] == x + y[..n];
      RunConcat(env, x, y[..n], dest);
    }
  }

  lemma RunSingle(env: Env, f: Formatter, dest: string)
    ensures RunAll(env, [f], dest) == RunOne(env, f, dest)
  {
    assert [f][..0] == [];
  }

  lemma FlagMeaning(env: Env, flag: char, pad: Padding, dest: string)
    ensures RunAll(env, FlagFormatters(env.customFlags, flag, pad), dest) == ShowFlag(env, flag, pad, dest)
  {
    var fs := FlagFormatters(env.customFlags, flag, pad);
    RunSingle(env, fs[0], dest);
    if |fs| == 2 {
      assert fs == [fs[0]] + [fs[1]];
      RunConcat(env, [fs[0]], [fs[1]], dest);
      RunSingle(env, fs[1], RunOne(env, fs[0], dest));
    } else {
      assert fs == [fs[0]];
    }
  }

  lemma FlushMeaning(env: Env, chars: string, dest: string)
    ensures RunAll(env, Flush(chars), dest) == dest + chars
  {
    if chars != [] { RunSingle(env, Literal(chars), dest); }
  }

  lemma {:induction false} CompiledMeaning(env: Env, pattern: string, chars: string, dest: string)
    ensures RunAll(env, CompileFrom(env.customFlags, pattern, chars), dest) == Show(env, pattern, dest + chars)
    decreases |pattern|
  {
    FlushMeaning(env, chars, dest);
    if pattern == [] {
    } else if pattern[0] != '%' {
      CompiledMeaning(env, pattern[1..], chars + [pattern[0]], dest);
      assert dest + (chars + [pattern[0]]) == (dest + chars) + [pattern[0]];
    } else {
      var (pad, rest) := PadSpec(pattern[1..]);
      if rest != [] {
        var a, b := Flush(chars), FlagFormatters(env.customFlags, rest[0], pad);
        var c := CompileFrom(env.customFlags, rest[1..], []);
        var written := ShowFlag(env, rest[0], pad, dest + chars);
        RunConcat(env, a + b, c, dest);
        RunConcat(env, a, b, dest);
        FlagMeaning(env, rest[0], pad, dest + chars);
        CompiledMeaning(env, rest[1..], [], written);
        assert written + [] == written;
      }
    }
  }

  /** Running the compiled pattern writes what reading the pattern writes. */
  lemma CompilingPreservesMeaning(env: Env, pattern: string, dest: string)
    ensures RunAll(env, CompileFrom(env.customFlags, pattern, []), dest) == Show(env, pattern, dest)
  {
    CompiledMeaning(env, pattern, [], dest);
    assert dest + [] == dest;
  }

  // ----- The loops -----

  /** `handle_padspec_`: reads a pad spec at `start` and returns where it ends. */
  method HandlePadspec(pattern: string, start: nat) returns (padding: Padding, it: nat)
    requires start <= |pattern|
    ensures start <= it <= |pattern| && (padding, pattern[it..]) == PadSpec(pattern[start..])
  {
    if start == |pattern| {
      return NO_PADDING, start;
    }
    if pattern[start] == '-' {
      padding, it := HandleWidth(pattern, start + 1, Right);
    } else if pattern[start] == '=' {
      padding, it := HandleWidth(pattern, start + 1, Center);
    } else {
      padding, it := HandleWidth(pattern, start, Left);
    }
  }

  /** Its second half, after the side: the digits and the truncation mark. */
  method HandleWidth(pattern: string, start: nat, side: PadSide) returns (padding: Padding, it: nat)
    requires start <= |pattern|
    ensures start <= it <= |pattern| && (padding, pattern[it..]) == PadWidth(pattern[start..], side)
  {
    it := start;
    if it == |pattern| || !IsDigit(pattern[it]) {
      return NO_PADDING, it;
    }
    var width: nat;
    width, it := ReadDigits(pattern, start);
    var truncate := it < |pattern| && pattern[it] == '!';
    if truncate {
      it := it + 1;
    }
    padding := Padding(if width < MAX_WIDTH then width else MAX_WIDTH, side, truncate, true);
  }

  method ReadDigits(pattern: string, start: nat) returns (width: nat, it: nat)
    requires start < |pattern| && IsDigit(pattern[start])
    ensures start < it <= |pattern| && (width, pattern[it..]) == Digits(pattern[start..], 0)
  {
    width, it := DigitValue(pattern[start]), start + 1;
    assert pattern[start..][1..] == pattern[it..];
    while it < |pattern| && IsDigit(pattern[it])
      invariant start < it <= |pattern|
      invariant Digits(pattern[it..], width) == Digits(pattern[start..], 0)
    {
      assert pattern[it..][1..] == pattern[it + 1..];
      width := (width * 10 + DigitValue(pattern[it])) % TWO64;
      it := it + 1;
    }
  }

  /** What one flag adds to the formatters made before it. */
  lemma CompileFlag(customFlags: set<char>, fs: seq<Formatter>, s: string, chars: string, pad: Padding, rest: string)
    requires s != [] && s[0] == '%' && PadSpec(s[1..]) == (pad, rest)
    ensures var flushed := fs + Flush(chars);
            fs + CompileFrom(customFlags, s, chars) ==
            if rest == [] then flushed
            else flushed + FlagFormatters(customFlags, rest[0], pad) + CompileFrom(customFlags, rest[1..], [])
  {
    if rest != [] {
      var a, b := Flush(chars), FlagFormatters(customFlags, rest[0], pad);
      var c := CompileFrom(customFlags, rest[1..], []);
      assert fs + (a + b + c) == (fs + a) + b + c;
    }
  }

  /** `compile_pattern_`: gathers literal characters and flushes them at each flag. */
  method CompilePattern(customFlags: set<char>, pattern: string) returns (formatters: seq<Formatter>)
    ensures formatters == CompileFrom(customFlags, pattern, [])
  {
    formatters := [];
    var chars: string := [];
    var it := 0;
    while it < |pattern|
      invariant 0 <= it <= |pattern|
      invariant formatters + CompileFrom(customFlags, pattern[it..], chars) == CompileFrom(customFlags, pattern, [])
    {
      assert pattern[it..][1..] == pattern[it + 1..];
      if pattern[it] == '%' {
        ghost var before, gathered := formatters, chars;
        formatters := formatters + Flush(chars);
        chars := [];
        var padding, at := HandlePadspec(pattern, it + 1);
        CompileFlag(customFlags, before, pattern[it..], gathered, padding, pattern[at..]);
        if at == |pattern| {
          return;
        }
        formatters := formatters + FlagFormatters(customFlags, pattern[at], padding);
        assert pattern[at..][1..] == pattern[at + 1..];
        it := at + 1;
      } else {
        chars := chars + [pattern[it]];
        it := it + 1;
      }
    }
    assert pattern[it..] == [];
    formatters := formatters + Flush(chars);
  }

  /** Compiling a pattern and formatting a message with it. */
  method LogLine(env: Env, pattern: string, eol: string, dest: string) returns (r: string)
    ensures r == Show(env, pattern, dest) + eol
  {
    var fs := CompilePattern(env.customFlags, pattern);
    CompilingPreservesMeaning(env, pattern, dest);
    r := Format(env, fs, eol, dest);
  }

  // ----- Consequences -----

  /** A pattern without '%' writes itself. */
  lemma {:induction false} PlainPattern(env: Env, pattern: string, dest: string)
    requires '%' !in pattern
    ensures Show(env, pattern, dest) == dest + pattern
    decreases |pattern|
  {
    if pattern == [] {
      assert dest + pattern == dest;
    } else {
      PlainPattern(env, pattern[1..], dest + [pattern[0]]);
      assert dest + [pattern[0]] + pattern[1..] == dest + pattern;
    }
  }

  /** The flags that go to the formatter of their own letter and have no second name. */
  const OWN_LETTERS: string := "+nlLtvaABcCYmdHIMSefFEprRzP^$@sg#!uioO"

  /** What a flag alone writes: a user's handler goes before everything; the percent sign is
      itself; the 44 built-in flags go to the formatter of their own letter, but h to that of b,
      x to that of D and X to that of T; anything else is written as it stands. */
  lemma OneFlag(env: Env, f: char, dest: string)
    requires !IsDigit(f) && f != '-' && f != '='
    ensures Show(env, ['%', f], dest) ==
            if f in env.customFlags then env.custom(dest, f, NO_PADDING)
            else if f == '%' then dest + "%"
            else if f == 'h' || f == 'b' then env.field(dest, 'b', NO_PADDING)
            else if f == 'x' || f == 'D' then env.field(dest, 'D', NO_PADDING)
            else if f == 'X' || f == 'T' then env.field(dest, 'T', NO_PADDING)
            else if f in OWN_LETTERS then env.field(dest, f, NO_PADDING)
            else dest + "%" + [f]
  {
    assert ['%', f][1..] == [f] && [f][1..] == [];
    assert PadSpec([f]) == (NO_PADDING, [f]);
    assert Show(env, [], ShowFlag(env, f, NO_PADDING, dest)) == ShowFlag(env, f, NO_PADDING, dest);
    if f !in env.customFlags && f != '%' {
      BuiltIn(f);
      assert dest + ['%', f] == dest + "%" + [f];
    }
  }

  lemma BuiltIn(f: char)
    ensures f in FLAGS <==> f in "hxXbDT" || f in OWN_LETTERS
    ensures f in "hxXbDT" <==> f == 'h' || f == 'x' || f == 'X' || f == 'b' || f == 'D' || f == 'T'
  {
  }

  /** A percent sign at the end of a pattern, with or without a pad spec, writes nothing. */
  lemma TrailingPercent(env: Env, dest: string)
    ensures Show(env, "%", dest) == dest
  {
  }

  /** An unknown flag after a truncation mark: the mark was the function-name flag. */
  lemma MarkWasFlag(env: Env, f: char, width: nat, dest: string)
    requires width < TWO64 && f !in env.customFlags && f !in FLAGS && f != '%'
    requires !IsDigit(f)
    ensures var w := if width < 64 then width else 64;
            Show(env, "%" + (Decimal(width) + ("!" + [f])), dest) ==
            env.field(dest, '!', Padding(w, Left, false, true)) + [f]
  {
    var spec := "" + (Decimal(width) + ("!" + [f]));
    PadSpecRoundTrip(Left, width, true, [f]);
    var pattern := "%" + (Decimal(width) + ("!" + [f]));
    assert pattern[1..] == spec == Decimal(width) + ("!" + [f]);
    assert [f][1..] == [];
  }

  /** `env` writes flag `f` as `text`, through the scoped padder when a spec is given, through
      nothing otherwise. */
  ghost predicate Writes(env: Env, f: char, text: string) {
    && f !in env.customFlags && f in FLAGS && f != '!'
    && forall dest, pad ::
         env.field(dest, Canonical(f), pad) == dest + if pad.enabled then Fit(text, pad) else text
  }

  /** End to end: a flag with a pad spec written out in a pattern adds exactly the capped width,
      or the longer text when it may not be cut. */
  lemma PaddedFlag(env: Env, f: char, text: string, side: PadSide, width: nat, truncate: bool, dest: string)
    requires Writes(env, f, text) && width < TWO64
    ensures var sign := match side case Left => "" case Right => "-" case Center => "=";
            var pattern := "%" + (sign + (Decimal(width) + ((if truncate then "!" else "") + [f])));
            var w := if width < 64 then width else 64;
            && Show(env, pattern, dest) == dest + Fit(text, Padding(w, side, truncate, true))
            && |Show(env, pattern, dest)| == |dest| + if truncate || |text| < w then w else |text|
  {
    var sign := match side case Left => "" case Right => "-" case Center => "=";
    var spec := sign + (Decimal(width) + ((if truncate then "!" else "") + [f]));
    var pad := Padding(if width < MAX_WIDTH then width else MAX_WIDTH, side, truncate, true);
    PadSpecRoundTrip(side, width, truncate, [f]);
    assert ("%" + spec)[1..] == spec;
    var written := ShowFlag(env, f, pad, dest);
    assert [f][1..] == [] && Show(env, [], written) == written;
    FitKeepsText(text, pad);
  }
}
