/**
 CSV output of the pose log: text fields are wrapped in double quotes with inner quotes
 doubled.  A reader following section 2 of RFC 4180 gets the fields back.
 */
module CsvField {
  import opened Basics

  // ----- Writing -----

  function Doubled(s: string): string {
    if s == [] then []
    else (if s[0] == '"' then ['"', '"'] else [s[0]]) + Doubled(s[1..])
  }

  function Wrapped(s: string): string {
    ['"'] + Doubled(s) + ['"']
  }

  /** `std::string::find` of a character. */
  method Find(s: string, c: char, from: nat) returns (at: Option<nat>)
    requires from <= |s|
    ensures at.None? ==> forall i :: from <= i < |s| ==> s[i] != c
    ensures at.Some? ==> from <= at.value < |s| && s[at.value] == c && forall i :: from <= i < at.value ==> s[i] != c
  {
    for i := from to |s|
      invariant forall j :: from <= j < i ==> s[j] != c
    {
      if s[i] == c {
        return Some(i);
      }
    }
    at := None;
  }

  /** Text without quotes is left as it is. */
  lemma {:induction false} DoubledPlain(plain: string, tail: string)
    requires '"' !in plain
    ensures Doubled(plain + tail) == plain + Doubled(tail)
  {
    if plain == [] {
      assert plain + tail == tail;
    } else {
      DoubledPlain(plain[1..], tail);
      assert (plain + tail)[1..] == plain[1..] + tail;
      assert plain == [plain[0]] + plain[1..];
    }
  }

  /** Doubling the first quote of what is left to do. */
  lemma DoubleNext(done: string, rest: string, n: nat)
    requires n < |rest| && rest[n] == '"' && '"' !in rest[..n]
    ensures done + Doubled(rest) == (done + rest[..n] + ['"', '"']) + Doubled(rest[n + 1..])
  {
    var tail := rest[n..];
    assert rest == rest[..n] + tail && tail[1..] == rest[n + 1..];
    DoubledPlain(rest[..n], tail);
    var d := Doubled(rest[n + 1..]);
    assert Doubled(tail) == ['"', '"'] + d;
    Regroup(done, rest[..n], ['"', '"'], d);
  }

  lemma Regroup(a: string, b: string, c: string, d: string)
    ensures a + (b + (c + d)) == (a + b + c) + d
  {
  }

  /** The in-place doubling loop: find the next quote, insert another before it, step past. */
  method CsvWrap(val: string) returns (r: string)
    ensures r == Wrapped(val)
  {
    var res := val;
    var pos := 0;
    ghost var done: string, rest := [], val;
    var at := Find(res, '"', pos);
    while at.Some?
      invariant res == done + rest && pos == |done| && done + Doubled(rest) == Doubled(val)
      invariant at.None? ==> forall i :: pos <= i < |res| ==> res[i] != '"'
      invariant at.Some? ==> pos <= at.value < |res| && res[at.value] == '"'
      invariant at.Some? ==> forall i :: pos <= i < at.value ==> res[i] != '"'
      decreases |rest|, at.Some?
    {
      var p := at.value;
      ghost var n := p - pos;
      assert forall i :: 0 <= i <= n ==> rest[i] == res[pos + i];
      DoubleNext(done, rest, n);
      InsertQuote(done, rest, n);
      res := res[..p] + ['"'] + res[p..];
      pos := p + 2;
      done, rest := done + rest[..n] + ['"', '"'], rest[n + 1..];
      at := Find(res, '"', pos);
    }
    assert forall i :: 0 <= i < |rest| ==> rest[i] == res[pos + i];
    DoubledPlain(rest, []);
    assert rest + [] == rest;
    r := ['"'] + res + ['"'];
  }

  lemma InsertQuote(done: string, rest: string, n: nat)
    requires n < |rest| && rest[n] == '"'
    ensures var res, p := done + rest, |done| + n;
            res[..p] + ['"'] + res[p..] == (done + rest[..n] + ['"', '"']) + rest[n + 1..]
  {
  }

  // ----- Reading -----

  /** The rest of a quoted field after its opening quote: its text, and what follows the
      closing quote. */
  function Quoted(s: string): Option<(string, string)> {
    if s == [] then None
    else if s[0] != '"' then
      var r := Quoted(s[1..]);
      if r.None? then None else Some(([s[0]] + r.value.0, r.value.1))
    else if |s| > 1 && s[1] == '"' then
      var r := Quoted(s[2..]);
      if r.None? then None else Some((['"'] + r.value.0, r.value.1))
    else Some(([], s[1..]))
  }

  predicate IsText(c: char) {
    c != '"' && c != ',' && c != '\r' && c != '\n'
  }

  /** An unquoted field: text up to a delimiter. */
  function Bare(s: string): (string, string) {
    if s == [] || !IsText(s[0]) then ([], s)
    else
      var (text, rest) := Bare(s[1..]);
      ([s[0]] + text, rest)
  }

  function ReadField(s: string): (r: Option<(string, string)>)
  {
    if s != [] && s[0] == '"' then Quoted(s[1..]) else Some(Bare(s))
  }

  lemma {:induction false} QuotedShorter(s: string)
    ensures Quoted(s).Some? ==> |Quoted(s).value.1| < |s|
  {
    if s != [] {
      if s[0] != '"' { QuotedShorter(s[1..]); } else if |s| > 1 && s[1] == '"' { QuotedShorter(s[2..]); }
    }
  }

  lemma {:induction false} BareShorter(s: string)
    ensures |Bare(s).1| <= |s|
  {
    if s != [] { BareShorter(s[1..]); }
  }

  lemma FieldShorter(s: string)
    ensures ReadField(s).Some? ==> |ReadField(s).value.1| <= |s|
  {
    if s != [] { QuotedShorter(s[1..]); }
    BareShorter(s);
  }

  /** One record: fields separated by commas, ended by a line break or the end of the text. */
  function ReadRecord(s: string): Option<(seq<string>, string)>
    decreases |s|
  {
    FieldShorter(s);
    var f := ReadField(s);
    if f.None? then None
    else
      var (text, rest) := f.value;
      if rest == [] then Some(([text], []))
      else if rest[0] == '\n' then Some(([text], rest[1..]))
      else if rest[0] == '\r' && |rest| > 1 && rest[1] == '\n' then Some(([text], rest[2..]))
      else if rest[0] == ',' then
        var r := ReadRecord(rest[1..]);
        if r.None? then None else Some(([text] + r.value.0, r.value.1))
      else None
  }

  // ----- Round trips -----

  /** What may follow a field: the end, a comma or a line break. */
  predicate Delimited(rest: string) {
    rest == [] || rest[0] == ',' || rest[0] == '\r' || rest[0] == '\n'
  }

  lemma QuotedHead(c: char, tail: string, text: string, rest: string)
    requires Quoted(tail) == Some((text, rest))
    ensures Quoted((if c == '"' then ['"', '"'] else [c]) + tail) == Some(([c] + text, rest))
  {
    var head := if c == '"' then ['"', '"'] else [c];
    assert (head + tail)[|head|..] == tail;
  }

  lemma {:induction false} QuotedDoubled(s: string, rest: string)
    requires rest == [] || rest[0] != '"'
    ensures Quoted(Doubled(s) + (['"'] + rest)) == Some((s, rest))
  {
    var close := ['"'] + rest;
    if s == [] {
      assert Doubled(s) + close == close && close[1..] == rest;
    } else {
      QuotedDoubled(s[1..], rest);
      var head := if s[0] == '"' then ['"', '"'] else [s[0]];
      var tail := Doubled(s[1..]) + close;
      QuotedHead(s[0], tail, s[1..], rest);
      assert Doubled(s) + close == head + tail by { Assoc(head, Doubled(s[1..]), close); }
      assert s == [s[0]] + s[1..];
    }
  }

  lemma Assoc(a: string, b: string, c: string)
    ensures (a + b) + c == a + (b + c)
  {
  }

  /** A wrapped field reads back as itself, whatever commas, quotes or line breaks it holds. */
  lemma WrappedRoundTrip(s: string, rest: string)
    requires Delimited(rest)
    ensures ReadField(Wrapped(s) + rest) == Some((s, rest))
  {
    assert (Wrapped(s) + rest)[1..] == Doubled(s) + (['"'] + rest);
    QuotedDoubled(s, rest);
  }

  /** A cell of a written row: wrapped text, or a number's digits as they are. */
  datatype Cell = Text(s: string) | Number(digits: string)

  predicate IsCell(c: Cell) {
    c.Number? ==> forall i :: 0 <= i < |c.digits| ==> IsText(c.digits[i])
  }

  function Written(c: Cell): string {
    match c
    case Text(s) => Wrapped(s)
    case Number(digits) => digits
  }

  function Content(c: Cell): string {
    match c
    case Text(s) => s
    case Number(digits) => digits
  }

  /** A row as the log writes it, without its line break. */
  function Row(cells: seq<Cell>): string
    requires cells != []
  {
    if |cells| == 1 then Written(cells[0]) else Written(cells[0]) + [','] + Row(cells[1..])
  }

  function Contents(cells: seq<Cell>): seq<string> {
    seq(|cells|, i requires 0 <= i < |cells| => Content(cells[i]))
  }

  lemma {:induction false} BareRoundTrip(digits: string, rest: string)
    requires Delimited(rest) && forall i :: 0 <= i < |digits| ==> IsText(digits[i])
    ensures Bare(digits + rest) == (digits, rest)
  {
    if digits == [] {
      assert digits + rest == rest;
    } else {
      BareRoundTrip(digits[1..], rest);
      assert (digits + rest)[1..] == digits[1..] + rest;
      assert digits == [digits[0]] + digits[1..];
    }
  }

  lemma CellRoundTrip(c: Cell, rest: string)
    requires IsCell(c) && Delimited(rest)
    ensures ReadField(Written(c) + rest) == Some((Content(c), rest))
  {
    match c {
      case Text(s) => WrappedRoundTrip(s, rest);
      case Number(digits) =>
        BareRoundTrip(digits, rest);
        assert digits + rest == [] || (digits + rest)[0] != '"';
    }
  }

  lemma ReadLast(s: string, text: string, more: string)
    requires ReadField(s) == Some((text, ['\n'] + more))
    ensures ReadRecord(s) == Some(([text], more))
  {
    assert (['\n'] + more)[1..] == more;
  }

  lemma ReadMore(s: string, text: string, tail: string, texts: seq<string>, more: string)
    requires ReadField(s) == Some((text, [','] + tail)) && ReadRecord(tail) == Some((texts, more))
    ensures ReadRecord(s) == Some(([text] + texts, more))
  {
    assert ([','] + tail)[1..] == tail;
  }

  lemma ContentsFront(cells: seq<Cell>)
    requires cells != []
    ensures Contents(cells) == [Content(cells[0])] + Contents(cells[1..])
  {
  }

  /** A row reads back as its fields, and the reader stops at its end. */
  lemma {:induction false} RowRoundTrip(cells: seq<Cell>, more: string)
    requires cells != [] && forall i :: 0 <= i < |cells| ==> IsCell(cells[i])
    ensures ReadRecord(Row(cells) + (['\n'] + more)) == Some((Contents(cells), more))
  {
    var first, end := cells[0], ['\n'] + more;
    ContentsFront(cells);
    if |cells| == 1 {
      CellRoundTrip(first, end);
      ReadLast(Written(first) + end, Content(first), more);
      assert Contents(cells) == [Content(first)];
    } else {
      var row := Row(cells[1..]);
      RowRoundTrip(cells[1..], more);
      CellRoundTrip(first, [','] + (row + end));
      assert Row(cells) + end == Written(first) + ([','] + (row + end)) by {
        Assoc(Written(first) + [','], row, end);
        Assoc(Written(first), [','], row + end);
      }
      ReadMore(Row(cells) + end, Content(first), row + end, Contents(cells[1..]), more);
    }
  }

  // ----- A whole file -----

  function File(rows: seq<seq<Cell>>): string
    requires forall i :: 0 <= i < |rows| ==> rows[i] != []
  {
    if rows == [] then [] else Row(rows[0]) + (['\n'] + File(rows[1..]))
  }

  lemma RecordShorter(s: string)
    ensures ReadRecord(s).Some? && s != [] ==> |ReadRecord(s).value.1| < |s|
    decreases |s|
  {
    FieldShorter(s);
    var f := ReadField(s);
    if s != [] && f.Some? {
      var rest := f.value.1;
      if rest != [] && rest[0] == ',' && rest[1..] != [] {
        RecordShorter(rest[1..]);
      }
    }
  }

  function ReadFile(s: string): Option<seq<seq<string>>>
    decreases |s|
  {
    if s == [] then Some([])
    else
      RecordShorter(s);
      var r := ReadRecord(s);
      if r.None? then None
      else
        var others := ReadFile(r.value.1);
        if others.None? then None else Some([r.value.0] + others.value)
  }

  /** The whole log reads back as the rows written to it. */
  lemma {:induction false} FileRoundTrip(rows: seq<seq<Cell>>)
    requires forall i :: 0 <= i < |rows| ==> rows[i] != []
    requires forall i, j :: 0 <= i < |rows| && 0 <= j < |rows[i]| ==> IsCell(rows[i][j])
    ensures ReadFile(File(rows)) == Some(seq(|rows|, i requires 0 <= i < |rows| => Contents(rows[i])))
  {
    var all := seq(|rows|, i requires 0 <= i < |rows| => Contents(rows[i]));
    if rows != [] {
      var tail := rows[1..];
      FileRoundTrip(tail);
      RowRoundTrip(rows[0], File(tail));
      assert all == [Contents(rows[0])] + seq(|tail|, i requires 0 <= i < |tail| => Contents(tail[i]));
    }
  }
}
